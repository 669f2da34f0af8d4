/** Reading and encoding undo each other: every value has exactly one accepted encoding. */
module DerCanonical {
  import opened Basics
  import opened Der

  /** Lengths that four long-form octets can express. */
  const READABLE: nat := 0x1_0000_0000

  lemma {:induction false} BigOfShortest(n: nat)
    ensures Big(Shortest(n)) == n
    ensures n > 0 ==> Shortest(n)[0] != 0
  {
    if n > 0 {
      BigOfShortest(n / 256);
      assert Shortest(n)[..|Shortest(n)| - 1] == Shortest(n / 256);
    }
  }

  lemma {:induction false} ShortestOfBig(b: Bytes)
    requires b != [] ==> b[0] != 0
    ensures Shortest(Big(b)) == b
  {
    if b != [] {
      var init := b[..|b| - 1];
      ShortestOfBig(init);
      assert Big(b) / 256 == Big(init) && Big(b) % 256 == b[|b| - 1];
      assert b == init + [b[|b| - 1]];
    }
  }

  lemma LongSize(n: nat)
    requires 128 <= n < READABLE
    ensures 1 <= |Shortest(n)| <= 4 && n >= SmallestLong(|Shortest(n)|)
  {
    Pow256Values();
    hide Shortest, Pow256;
    ShortestSize(n, 0);
    ShortestSize(n, 1);
    ShortestSize(n, 2);
    ShortestSize(n, 3);
    ShortestSize(n, 4);
  }

  lemma Pow256Values()
    ensures Pow256(0) == 1 && Pow256(1) == 0x100 && Pow256(2) == 0x1_0000 && Pow256(3) == 0x100_0000 && Pow256(4) == READABLE
  {
  }

  /** A readable length: reading its encoding gives it back and stops right behind it. */
  lemma LengthRoundTrip(n: nat, rest: Bytes)
    requires n < READABLE
    ensures LengthStep(EncodeLength(n) + rest) == Step(Ok(n), |EncodeLength(n)|)
  {
    hide Big, Shortest, SmallestLong;
    if n >= 128 {
      var d := Shortest(n);
      LongSize(n);
      BigOfShortest(n);
      var b := EncodeLength(n) + rest;
      assert b == [128 + |d|] + d + rest;
      assert b[1..1 + |d|] == d;
    }
  }

  /** The octets of a length that is too large for fewer of them. */
  lemma LongLength(d: Bytes)
    requires 1 <= |d| <= 4 && Big(d) >= SmallestLong(|d|)
    ensures 128 <= Big(d) < READABLE && EncodeLength(Big(d)) == [128 + |d|] + d
  {
    BigOfFew(d);
    assert d[0] != 0;
    ShortestOfBig(d);
  }

  /** Any length read successfully was spelled by its encoding and nothing else. */
  lemma LengthIsCanonical(b: Bytes)
    requires LengthStep(b).result.Ok?
    ensures LengthStep(b).result.value < READABLE
    ensures LengthStep(b).used <= |b|
    ensures b[..LengthStep(b).used] == EncodeLength(LengthStep(b).result.value)
  {
    hide Big, Shortest;
    if b[0] >= 128 {
      var k := b[0] - 0x80;
      var d := b[1..1 + k];
      assert |d| == k;
      LongLength(d);
      assert b[..1 + k] == [b[0]] + d;
    } else {
      assert b[..1] == [b[0]];
    }
  }

  /** Reading an encoding in front of anything gives back tag and contents and leaves the rest,
      exactly when the contents are shorter than the limit and than four octets can say. */
  lemma ReadEncoded(tag: Byte, value: Bytes, rest: Bytes, limit: nat)
    requires tag % 32 != 31
    requires |value| < 0x1_0000_0000_0000_0000
    ensures
      var s := TlvStep(Encode(tag, value) + rest, limit);
      s == Step(Ok(Tlv(tag, value)), |Encode(tag, value)|) <==> |value| < limit && |value| < READABLE
    ensures TlvStep(Encode(tag, value) + rest, limit).result.Err? <==> |value| >= limit || |value| >= READABLE
  {
    hide LengthStep, EncodeLength, Shortest, Pow256;
    var b := Encode(tag, value) + rest;
    var len := EncodeLength(|value|);
    assert b[1..] == len + (value + rest);
    if |value| < READABLE {
      LengthRoundTrip(|value|, value + rest);
      assert b[1 + |len|..1 + |len| + |value|] == value;
    } else {
      UnreadableLength(|value|, value + rest);
    }
  }

  lemma UnreadableLength(n: nat, rest: Bytes)
    requires READABLE <= n < 0x1_0000_0000_0000_0000
    ensures LengthStep(EncodeLength(n) + rest).result.Err?
  {
    hide Shortest;
    ShortestSize(n, 4);
    assert Pow256(4) == READABLE;
    assert (EncodeLength(n) + rest)[0] > 0x84;
  }

  /** Every successful read consumed exactly the encoding of what it returned. */
  lemma ReadIsCanonical(b: Bytes, limit: nat)
    requires TlvStep(b, limit).result.Ok?
    ensures
      var s := TlvStep(b, limit);
      var Tlv(tag, value) := s.result.value;
      && tag % 32 != 31 && |value| < limit && |value| < READABLE
      && b == Encode(tag, value) + b[s.used..]
  {
    hide LengthStep, EncodeLength;
    LengthIsCanonical(b[1..]);
    var u, end := LengthStep(b[1..]).used, TlvStep(b, limit).used;
    assert b[1..1 + u] == b[1..][..u];
    assert b == [b[0]] + b[1..1 + u] + b[1 + u..end] + b[end..];
  }

  /** The encodings form a prefix code: two of them never begin the same input. */
  lemma EncodingIsUnique(tag: Byte, value: Bytes, rest: Bytes, tag': Byte, value': Bytes, rest': Bytes)
    requires tag % 32 != 31 && tag' % 32 != 31
    requires |value| < READABLE && |value'| < READABLE
    requires Encode(tag, value) + rest == Encode(tag', value') + rest'
    ensures tag == tag' && value == value' && rest == rest'
  {
    ReadEncoded(tag, value, rest, READABLE);
    ReadEncoded(tag', value', rest', READABLE);
    assert (Encode(tag, value) + rest)[|Encode(tag, value)|..] == rest;
  }

  // ----- INTEGER contents

  /** The contents octets of a non-negative INTEGER: two's complement without a needless octet
      (section 8.3.2 of X.690). */
  function IntegerContents(n: nat): Bytes {
    if n == 0 then [0]
    else if Shortest(n)[0] < 128 then Shortest(n)
    else [0] + Shortest(n)
  }

  /** What a caller of `nonnegative_integer` gets for `n`: its magnitude octets. */
  function Magnitude(n: nat): Bytes {
    if n == 0 then [0] else Shortest(n)
  }

  /** The accepted contents are the encodings of the naturals, one for each, and the result is
      the magnitude. */
  lemma NonnegativeIntegerExact(contents: Bytes, magnitude: Bytes)
    ensures NonnegativeContents(contents) == Ok(magnitude)
       <==> exists n: nat :: contents == IntegerContents(n) && magnitude == Magnitude(n)
  {
    if NonnegativeContents(contents) == Ok(magnitude) {
      var n := Big(contents);
      if contents[0] != 0 {
        ShortestOfBig(contents);
      } else if |contents| > 1 {
        ShortestOfBig(contents[1..]);
        LeadingZero(contents[1..]);
        assert contents == [0] + contents[1..];
      }
      assert contents == IntegerContents(n) && magnitude == Magnitude(n);
    }
    forall n: nat | contents == IntegerContents(n) && magnitude == Magnitude(n)
      ensures NonnegativeContents(contents) == Ok(magnitude)
    {
      BigOfShortest(n);
      if n > 0 && Shortest(n)[0] >= 128 {
        assert contents[1..] == Shortest(n);
      }
    }
  }

  lemma {:induction false} LeadingZero(b: Bytes)
    ensures Big([0] + b) == Big(b)
  {
    if b != [] {
      assert ([0] + b)[..|b|] == [0] + b[..|b| - 1];
      LeadingZero(b[..|b| - 1]);
    }
  }
}
