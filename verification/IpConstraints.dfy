/** Matching IP addresses against address ranges (src/subject_name/ip_address.rs, RFC 4632). */
module IpConstraints {
  import opened Basics
  import opened Readers
  import opened Der

  // ----- bits of an octet

  /** `u8::leading_ones` */
  function LeadingOnes(b: Byte): nat {
    if b < 0x80 then 0
    else if b < 0xC0 then 1
    else if b < 0xE0 then 2
    else if b < 0xF0 then 3
    else if b < 0xF8 then 4
    else if b < 0xFC then 5
    else if b < 0xFE then 6
    else if b < 0xFF then 7
    else 8
  }

  /** `u8::trailing_zeros` */
  function TrailingZeros(b: Byte): nat {
    if b == 0 then 8
    else if b % 2 != 0 then 0
    else if b % 4 != 0 then 1
    else if b % 8 != 0 then 2
    else if b % 16 != 0 then 3
    else if b % 32 != 0 then 4
    else if b % 64 != 0 then 5
    else if b % 128 != 0 then 6
    else 7
  }

  /** `a ^ b`, bit by bit from the last one. */
  function BitXor(a: nat, b: nat): nat {
    if a == 0 && b == 0 then 0 else 2 * BitXor(a / 2, b / 2) + (a % 2 + b % 2) % 2
  }

  /** `a & b` */
  function BitAnd(a: nat, b: nat): nat {
    if a == 0 || b == 0 then 0 else 2 * BitAnd(a / 2, b / 2) + (if a % 2 == 1 && b % 2 == 1 then 1 else 0)
  }

  predicate DifferUnder(a: Byte, b: Byte, mask: Byte) {
    BitAnd(BitXor(a, b), mask) != 0
  }

  // ----- the loop

  /** The loop over the remaining octets of name, address and mask. */
  function CidrLoop(name: Bytes, address: Bytes, mask: Bytes, seenZeroBit: bool): Result<bool>
    requires |name| == |address| == |mask|
  {
    if name == [] then Ok(true)
    else if LeadingOnes(mask[0]) + TrailingZeros(mask[0]) != 8 then Err(InvalidNetworkMaskConstraint)
    else if seenZeroBit && mask[0] != 0 then Err(InvalidNetworkMaskConstraint)
    else if DifferUnder(name[0], address[0], mask[0]) then Ok(false)
    else CidrLoop(name[1..], address[1..], mask[1..], seenZeroBit || mask[0] != 0xff)
  }

  function MatchesConstraint(name: Bytes, constraint: Bytes): Result<bool> {
    if (|name| == 4 && |constraint| == 8) || (|name| == 16 && |constraint| == 32) then
      CidrLoop(name, constraint[..|name|], constraint[|name|..], false)
    else if (|name| == 4 && |constraint| == 32) || (|name| == 16 && |constraint| == 8) then Ok(false)
    else if |name| == 4 || |name| == 16 then Err(InvalidNetworkMaskConstraint)
    else Err(BadDer)
  }

  lemma CidrStep(name: Bytes, address: Bytes, mask: Bytes, seenZeroBit: bool)
    requires |name| == |address| == |mask|
    ensures name == [] ==> CidrLoop(name, address, mask, seenZeroBit) == Ok(true)
    ensures name != [] ==>
      CidrLoop(name, address, mask, seenZeroBit)
      == if LeadingOnes(mask[0]) + TrailingZeros(mask[0]) != 8 || (seenZeroBit && mask[0] != 0) then Err(InvalidNetworkMaskConstraint)
         else if DifferUnder(name[0], address[0], mask[0]) then Ok(false)
         else CidrLoop(name[1..], address[1..], mask[1..], seenZeroBit || mask[0] != 0xff)
  {
    hide DifferUnder, LeadingOnes, TrailingZeros;
  }

  /** The loop over the three readers. */
  method CompareUnderMask(name: Bytes, address: Bytes, mask: Bytes) returns (res: Result<bool>)
    requires |name| == |address| == |mask| > 0
    ensures res == CidrLoop(name, address, mask, false)
  {
    hide CidrLoop, DifferUnder, LeadingOnes, TrailingZeros;
    var nameReader := new Reader(name);
    var addressReader := new Reader(address);
    var maskReader := new Reader(mask);
    var seenZeroBit := false;
    assert nameReader.Rest() == name && addressReader.Rest() == address && maskReader.Rest() == mask;
    while true
      invariant nameReader.Valid() && addressReader.Valid() && maskReader.Valid()
      invariant nameReader.pos == addressReader.pos == maskReader.pos < |name|
      invariant CidrLoop(name, address, mask, false)
             == CidrLoop(nameReader.Rest(), addressReader.Rest(), maskReader.Rest(), seenZeroBit)
      decreases |name| - nameReader.pos
    {
      ghost var n, a, m := nameReader.Rest(), addressReader.Rest(), maskReader.Rest();
      CidrStep(n, a, m, seenZeroBit);
      var nameByte := nameReader.ReadByte();
      var addressByte := addressReader.ReadByte();
      var maskByte := maskReader.ReadByte();
      assert n[1..] == nameReader.Rest() && a[1..] == addressReader.Rest() && m[1..] == maskReader.Rest();
      if LeadingOnes(maskByte.value) + TrailingZeros(maskByte.value) != 8 {
        return Err(InvalidNetworkMaskConstraint);
      }
      if seenZeroBit && maskByte.value != 0x00 {
        return Err(InvalidNetworkMaskConstraint);
      }
      if maskByte.value != 0xff {
        seenZeroBit := true;
      }
      if DifferUnder(nameByte.value, addressByte.value, maskByte.value) {
        return Ok(false);
      }
      if nameReader.AtEnd() {
        CidrStep(n[1..], a[1..], m[1..], seenZeroBit);
        break;
      }
    }
    return Ok(true);
  }

  /** `presented_id_matches_constraint` */
  method PresentedIdMatchesConstraint(name: Bytes, constraint: Bytes) returns (res: Result<bool>)
    ensures res == MatchesConstraint(name, constraint)
  {
    hide CidrLoop;
    if !((|name| == 4 && |constraint| == 8) || (|name| == 16 && |constraint| == 32)) {
      if (|name| == 4 && |constraint| == 32) || (|name| == 16 && |constraint| == 8) {
        return Ok(false);
      }
      return Err(if |name| == 4 || |name| == 16 then InvalidNetworkMaskConstraint else BadDer);
    }
    var value := new Reader(constraint);
    var address := value.ReadBytes(|constraint| / 2);
    var mask := value.ReadBytes(|constraint| / 2);
    assert constraint[|name|..|constraint|] == constraint[|name|..];
    res := CompareUnderMask(name, address.value, mask.value);
  }

  // ----- integers

  function Pow2(n: nat): (p: nat)
    ensures p > 0
  {
    if n == 0 then 1 else 2 * Pow2(n - 1)
  }

  lemma {:induction false} Pow2Sum(a: nat, b: nat)
    ensures Pow2(a + b) == Pow2(a) * Pow2(b)
  {
    if a > 0 {
      Pow2Sum(a - 1, b);
      MulAssociates(2, Pow2(a - 1), Pow2(b));
    }
  }

  lemma MulAssociates(a: nat, b: nat, c: nat)
    ensures a * (b * c) == (a * b) * c
  {
  }

  lemma Pow2Product(a: nat, b: nat, sum: nat)
    requires sum == a + b
    ensures Pow2(sum) == Pow2(a) * Pow2(b)
  {
    Pow2Sum(a, b);
  }

  lemma SmallPow2()
    ensures Pow2(0) == 1 && Pow2(1) == 2 && Pow2(2) == 4 && Pow2(3) == 8 && Pow2(4) == 16
    ensures Pow2(5) == 32 && Pow2(6) == 64 && Pow2(7) == 128 && Pow2(8) == 256
  {
  }

  /** The leading octet weighs 256 to the number of octets behind it. */
  lemma {:induction false} BigHead(b: Bytes)
    requires b != []
    ensures Big(b) == b[0] * Pow2(8 * (|b| - 1)) + Big(b[1..])
    ensures Big(b) < Pow2(8 * |b|)
    decreases |b|
  {
    SmallPow2();
    if |b| == 1 {
      assert b[..0] == [] && b[1..] == [];
      Pow2Sum(8, 0);
    } else {
      var init, k := b[..|b| - 1], |b| - 2;
      BigHead(init);
      assert b[1..][..|b[1..]| - 1] == init[1..];
      Pow2Sum(8, 8 * k);
      Pow2Sum(8, 8 * (k + 1));
      Shift(b[0], Pow2(8 * k), Big(init[1..]));
    }
  }

  lemma Shift(a: nat, p: nat, rest: nat)
    ensures (a * p + rest) * 256 == a * (256 * p) + rest * 256
  {
  }

  lemma BigBound(b: Bytes)
    ensures Big(b) < Pow2(8 * |b|)
  {
    if b != [] {
      BigHead(b);
    }
  }

  lemma {:induction false} BigInjective(a: Bytes, b: Bytes)
    requires |a| == |b| && Big(a) == Big(b)
    ensures a == b
  {
    if a != [] {
      var k := |a| - 1;
      BigInjective(a[..k], b[..k]);
      assert a == a[..k] + [a[k]] && b == b[..k] + [b[k]];
    }
  }

  /** Division by the weight below the leading octet's bits. */
  lemma DivUnique(n: nat, d: nat, q: nat, r: nat)
    requires d > 0 && r < d && n == q * d + r
    ensures n / d == q && n % d == r
  {
    SmallMultiple(n / d - q, d);
    assert (n / d - q) * d == r - n % d;
  }

  lemma SmallMultiple(x: int, d: int)
    requires d >= 0
    ensures x > 0 ==> x * d >= d
    ensures x < 0 ==> x * d <= -d
  {
  }

  // ----- masks

  /** The mask octets of a prefix of `n` bits. */
  function PrefixMask(size: nat, n: nat): Bytes
    requires n <= 8 * size
  {
    if size == 0 then []
    else if n >= 8 then [0xff] + PrefixMask(size - 1, n - 8)
    else [PartialMask(n)] + seq(size - 1, _ => 0)
  }

  function PartialMask(n: nat): Byte
    requires n < 8
  {
    [0, 0x80, 0xC0, 0xE0, 0xF0, 0xF8, 0xFC, 0xFE][n]
  }

  lemma ByteMasks(b: Byte)
    ensures LeadingOnes(b) + TrailingZeros(b) == 8 <==> b == 0xff || exists n: nat :: n < 8 && b == PartialMask(n)
  {
    assert PartialMask(0) == 0 && PartialMask(1) == 0x80 && PartialMask(2) == 0xC0 && PartialMask(3) == 0xE0;
    assert PartialMask(4) == 0xF0 && PartialMask(5) == 0xF8 && PartialMask(6) == 0xFC && PartialMask(7) == 0xFE;
  }

  /** `a >> k` */
  function ShiftRight(a: nat, k: nat): nat {
    if k == 0 then a else ShiftRight(a / 2, k - 1)
  }

  /** `ones` one bits followed by `zeros` zero bits. */
  function Ones(ones: nat, zeros: nat): nat {
    if zeros > 0 then 2 * Ones(ones, zeros - 1)
    else if ones > 0 then 2 * Ones(ones - 1, 0) + 1
    else 0
  }

  lemma {:induction false} XorZero(a: nat, b: nat)
    ensures BitXor(a, b) == 0 <==> a == b
    decreases a + b
  {
    if a + b > 0 {
      XorZero(a / 2, b / 2);
    }
  }

  lemma {:induction false} XorShift(a: nat, b: nat, k: nat)
    ensures ShiftRight(BitXor(a, b), k) == BitXor(ShiftRight(a, k), ShiftRight(b, k))
    decreases k
  {
    if k > 0 {
      assert BitXor(a, b) / 2 == BitXor(a / 2, b / 2);
      XorShift(a / 2, b / 2, k - 1);
    }
  }

  lemma {:induction false} XorBound(a: nat, b: nat, k: nat)
    requires a < Pow2(k) && b < Pow2(k)
    ensures BitXor(a, b) < Pow2(k)
    decreases k
  {
    if k > 0 {
      XorBound(a / 2, b / 2, k - 1);
    }
  }

  /** Masking with leading ones asks whether anything is left after shifting out the zeros. */
  lemma {:induction false} AndOnes(x: nat, ones: nat, zeros: nat)
    requires x < Pow2(ones + zeros)
    ensures BitAnd(x, Ones(ones, zeros)) == 0 <==> ShiftRight(x, zeros) == 0
    decreases ones + zeros
  {
    if zeros > 0 {
      AndOnes(x / 2, ones, zeros - 1);
      AndDouble(x, Ones(ones, zeros - 1));
    } else if ones > 0 {
      AndOnes(x / 2, ones - 1, 0);
    }
  }

  lemma AndDouble(x: nat, m: nat)
    ensures BitAnd(x, 2 * m) == 2 * BitAnd(x / 2, m)
  {
    var even := 2 * m;
    assert even % 2 == 0 && even / 2 == m;
    if x > 0 && m > 0 {
      assert BitAnd(x, even) == 2 * BitAnd(x / 2, even / 2);
    }
  }

  lemma HalfQuotient(a: nat, d: nat)
    requires d > 0
    ensures a / (2 * d) == a / 2 / d
  {
    var q, r := a / 2 / d, a / 2 % d;
    DivUnique(a, 2 * d, q, 2 * r + a % 2);
  }

  lemma {:induction false} ShiftIsDivision(a: nat, k: nat)
    ensures ShiftRight(a, k) == a / Pow2(k)
  {
    if k > 0 {
      ShiftIsDivision(a / 2, k - 1);
      HalfQuotient(a, Pow2(k - 1));
    }
  }

  lemma PartialMaskIsOnes(n: nat)
    requires n < 8
    ensures PartialMask(n) == Ones(n, 8 - n)
    ensures Ones(8, 0) == 0xff
  {
    assert Ones(1, 0) == 1 && Ones(2, 0) == 3 && Ones(3, 0) == 7 && Ones(4, 0) == 15;
    assert Ones(5, 0) == 31 && Ones(6, 0) == 63 && Ones(7, 0) == 127;
    OnesShifted(n, 8 - n);
    SmallPow2();
  }

  lemma {:induction false} OnesShifted(ones: nat, zeros: nat)
    ensures Ones(ones, zeros) == Ones(ones, 0) * Pow2(zeros)
  {
    if zeros > 0 {
      OnesShifted(ones, zeros - 1);
    }
  }

  lemma XorIsOctet(a: Byte, b: Byte)
    ensures BitXor(a, b) < Pow2(8)
    ensures ShiftRight(a, 0) == a && ShiftRight(b, 0) == b && ShiftRight(BitXor(a, b), 0) == BitXor(a, b)
  {
    SmallPow2();
    XorBound(a, b, 8);
  }

  lemma MaskedOnes(a: Byte, b: Byte, ones: nat, zeros: nat)
    requires ones + zeros == 8
    ensures BitAnd(BitXor(a, b), Ones(ones, zeros)) != 0 <==> ShiftRight(a, zeros) != ShiftRight(b, zeros)
  {
    hide *;
    XorIsOctet(a, b);
    AndOnes(BitXor(a, b), ones, zeros);
    XorShift(a, b, zeros);
    XorZero(ShiftRight(a, zeros), ShiftRight(b, zeros));
  }

  /** Under a mask of `n` leading ones two octets agree when they are equal without their other bits. */
  lemma MaskIsShift(a: Byte, b: Byte, n: nat)
    requires n < 8
    ensures DifferUnder(a, b, PartialMask(n)) <==> ShiftRight(a, 8 - n) != ShiftRight(b, 8 - n)
    ensures DifferUnder(a, b, 0xff) <==> a != b
  {
    hide BitXor, BitAnd, PartialMask, Ones, ShiftRight;
    PartialMaskIsOnes(n);
    MaskedOnes(a, b, n, 8 - n);
    MaskedOnes(a, b, 8, 0);
    XorIsOctet(a, b);
  }

  /** The prefix mask is the integer 2^bits - 2^(bits - n). */
  lemma {:induction false} PrefixMaskValue(size: nat, n: nat)
    requires n <= 8 * size
    ensures |PrefixMask(size, n)| == size
    ensures Big(PrefixMask(size, n)) == Pow2(8 * size) - Pow2(8 * size - n)
  {
    if size > 0 {
      if n >= 8 {
        PrefixMaskValue(size - 1, n - 8);
        FullMaskOctet(size, n);
      } else {
        PartialMaskOctet(size, n);
      }
    }
  }

  lemma FullMaskOctet(size: nat, n: nat)
    requires 8 <= n <= 8 * size
    requires Big(PrefixMask(size - 1, n - 8)) == Pow2(8 * (size - 1)) - Pow2(8 * size - n)
    requires |PrefixMask(size - 1, n - 8)| == size - 1
    ensures |PrefixMask(size, n)| == size
    ensures Big(PrefixMask(size, n)) == Pow2(8 * size) - Pow2(8 * size - n)
  {
    hide Pow2, Big;
    var mask := PrefixMask(size, n);
    assert mask[1..] == PrefixMask(size - 1, n - 8);
    BigHead(mask);
    Pow2Product(8, 8 * (size - 1), 8 * size);
    SmallPow2();
  }

  lemma PartialMaskOctet(size: nat, n: nat)
    requires size > 0 && n < 8
    ensures |PrefixMask(size, n)| == size
    ensures Big(PrefixMask(size, n)) == Pow2(8 * size) - Pow2(8 * size - n)
  {
    hide Pow2, Big, PartialMask;
    var mask := PrefixMask(size, n);
    BigHead(mask);
    Zeros(mask[1..]);
    PartialMaskValue(n);
    Difference(256, Pow2(8 - n), Pow2(8 * (size - 1)));
    PartialPowers(size, n);
  }

  lemma PartialPowers(size: nat, n: nat)
    requires size > 0 && n < 8
    ensures Pow2(8 * size) == 256 * Pow2(8 * (size - 1))
    ensures Pow2(8 * size - n) == Pow2(8 - n) * Pow2(8 * (size - 1))
  {
    hide Pow2;
    SmallPow2();
    Pow2Product(8, 8 * (size - 1), 8 * size);
    Pow2Product(8 - n, 8 * (size - 1), 8 * size - n);
  }

  lemma Difference(a: nat, b: nat, p: nat)
    ensures (a - b) * p == a * p - b * p
  {
  }

  lemma PartialMaskValue(n: nat)
    requires n < 8
    ensures PartialMask(n) == 256 - Pow2(8 - n)
  {
    SmallPow2();
  }

  lemma {:induction false} Zeros(b: Bytes)
    requires forall i :: 0 <= i < |b| ==> b[i] == 0
    ensures Big(b) == 0
  {
    if b != [] {
      Zeros(b[..|b| - 1]);
    }
  }

  /** Behind the last one bit nothing is compared any more. */
  lemma {:induction false} ZeroMaskMatches(name: Bytes, address: Bytes, mask: Bytes, seenZeroBit: bool)
    requires |name| == |address| == |mask|
    requires forall i :: 0 <= i < |mask| ==> mask[i] == 0
    ensures CidrLoop(name, address, mask, seenZeroBit) == Ok(true)
  {
    if name != [] {
      assert !DifferUnder(name[0], address[0], 0);
      ZeroMaskMatches(name[1..], address[1..], mask[1..], true);
    }
  }

  /** The octets as an integer, without its `low` last bits. */
  function Above(b: Bytes, low: nat): nat {
    QuotientIsNat(Big(b), Pow2(low));
    Big(b) / Pow2(low)
  }

  lemma QuotientIsNat(n: nat, d: nat)
    requires d > 0
    ensures n / d >= 0
  {
  }

  /** With a prefix mask the loop compares the integers without their last bits. */
  lemma {:induction false} PrefixMatchIsDivision(name: Bytes, address: Bytes, n: nat)
    requires |name| == |address| && n <= 8 * |name|
    ensures |PrefixMask(|name|, n)| == |name|
    ensures
      var low := 8 * |name| - n;
      CidrLoop(name, address, PrefixMask(|name|, n), false) == Ok(Above(name, low) == Above(address, low))
  {
    PrefixMaskValue(|name|, n);
    if name != [] {
      var mask, k := PrefixMask(|name|, n), |name| - 1;
      if n >= 8 {
        PrefixMatchIsDivision(name[1..], address[1..], n - 8);
        assert mask[1..] == PrefixMask(k, n - 8);
        hide *;
        FullStep(name, address, mask, n);
      } else {
        assert forall i :: 0 <= i < k ==> mask[1..][i] == 0;
        assert mask[0] == PartialMask(n);
        hide *;
        PartialStep(name, address, mask, n);
      }
    } else {
      assert Above(name, 0) == Above(address, 0);
    }
  }

  lemma MasksAreValid(n: nat)
    requires n < 8
    ensures LeadingOnes(PartialMask(n)) + TrailingZeros(PartialMask(n)) == 8 && PartialMask(n) != 0xff
    ensures LeadingOnes(0xff) + TrailingZeros(0xff) == 8
  {
    ByteMasks(PartialMask(n));
  }

  lemma FullOctetCompares(name: Bytes, address: Bytes, mask: Bytes)
    requires |name| == |address| == |mask| > 0 && mask[0] == 0xff
    ensures CidrLoop(name, address, mask, false)
         == if name[0] != address[0] then Ok(false) else CidrLoop(name[1..], address[1..], mask[1..], false)
  {
    hide DifferUnder, LeadingOnes, TrailingZeros, PartialMask, ShiftRight;
    MasksAreValid(0);
    MaskIsShift(name[0], address[0], 0);
  }

  lemma PartialOctetCompares(name: Bytes, address: Bytes, mask: Bytes, n: nat)
    requires |name| == |address| == |mask| > 0 && n < 8 && mask[0] == PartialMask(n)
    requires forall i :: 0 <= i < |mask| - 1 ==> mask[1..][i] == 0
    ensures CidrLoop(name, address, mask, false) == Ok(ShiftRight(name[0], 8 - n) == ShiftRight(address[0], 8 - n))
  {
    hide DifferUnder, LeadingOnes, TrailingZeros, PartialMask, ShiftRight;
    MasksAreValid(n);
    MaskIsShift(name[0], address[0], n);
    ZeroMaskMatches(name[1..], address[1..], mask[1..], mask[0] != 0xff);
  }

  lemma FullStep(name: Bytes, address: Bytes, mask: Bytes, n: nat)
    requires |name| == |address| == |mask| > 0 && 8 <= n <= 8 * |name| && mask[0] == 0xff
    requires
      var low := 8 * |name| - n;
      CidrLoop(name[1..], address[1..], mask[1..], false) == Ok(Above(name[1..], low) == Above(address[1..], low))
    ensures
      var low := 8 * |name| - n;
      CidrLoop(name, address, mask, false) == Ok(Above(name, low) == Above(address, low))
  {
    hide *;
    var low := 8 * |name| - n;
    FullOctetCompares(name, address, mask);
    FullOctet(name, n);
    FullOctet(address, n);
    SameHead(name[0], address[0], Above(name[1..], low), Above(address[1..], low), Pow2(n - 8));
  }

  lemma PartialStep(name: Bytes, address: Bytes, mask: Bytes, n: nat)
    requires |name| == |address| == |mask| > 0 && n < 8 && mask[0] == PartialMask(n)
    requires forall i :: 0 <= i < |mask| - 1 ==> mask[1..][i] == 0
    ensures
      var low := 8 * |name| - n;
      CidrLoop(name, address, mask, false) == Ok(Above(name, low) == Above(address, low))
  {
    hide *;
    PartialOctetCompares(name, address, mask, n);
    PartialOctet(name, n);
    PartialOctet(address, n);
  }

  function Weigh(head: nat, weight: nat, rest: nat): nat {
    head * weight + rest
  }

  lemma FullOctet(name: Bytes, n: nat)
    requires name != [] && 8 <= n <= 8 * |name|
    ensures
      var low := 8 * |name| - n;
      && Above(name, low) == Weigh(name[0], Pow2(n - 8), Above(name[1..], low))
      && Above(name[1..], low) < Pow2(n - 8)
  {
    var p, d, e := Pow2(8 * (|name| - 1)), Pow2(8 * |name| - n), Pow2(n - 8);
    Pow2Product(8 * |name| - n, n - 8, 8 * (|name| - 1));
    BigHead(name);
    BigBound(name[1..]);
    hide Pow2, Big;
    HeadQuotient(name[0], Big(name[1..]), p, d, e);
  }

  lemma PartialOctet(name: Bytes, n: nat)
    requires name != [] && n < 8
    ensures Above(name, 8 * |name| - n) == ShiftRight(name[0], 8 - n)
  {
    var d, p, q := Pow2(8 * |name| - n), Pow2(8 * (|name| - 1)), Pow2(8 - n);
    Pow2Product(8 - n, 8 * (|name| - 1), 8 * |name| - n);
    BigHead(name);
    BigBound(name[1..]);
    ShiftIsDivision(name[0], 8 - n);
    hide Pow2, Big, ShiftRight;
    PartialQuotient(name[0], Big(name[1..]), p, q, d);
  }

  lemma HeadQuotient(a: nat, rest: nat, p: nat, d: nat, e: nat)
    requires d > 0 && e > 0 && p == d * e && rest < p
    ensures (a * p + rest) / d == a * e + rest / d
    ensures rest / d < e
  {
    var q, r := rest / d, rest % d;
    assert (a * e + q) * d + r == a * p + rest by {
      assert (a * e) * d == a * (d * e);
    }
    DivUnique(a * p + rest, d, a * e + q, r);
    SmallMultiple(q - e, d);
  }

  lemma SameHead(a: nat, b: nat, x: nat, y: nat, e: nat)
    requires x < e && y < e
    ensures Weigh(a, e, x) == Weigh(b, e, y) <==> a == b && x == y
  {
    SmallMultiple(a - b, e);
    assert (a - b) * e == a * e - b * e;
  }

  lemma Combine(h: nat, q: nat, p: nat, r: nat)
    ensures h * (q * p) + r * p == (h * q + r) * p
  {
    assert h * (q * p) == (h * q) * p;
  }

  lemma RemainderFits(r: nat, q: nat, p: nat, rest: nat)
    requires r < q && rest < p
    ensures r * p + rest < q * p
  {
    SmallMultiple(q - r, p);
    assert (q - r) * p == q * p - r * p;
  }

  lemma PartialQuotient(a: nat, rest: nat, p: nat, q: nat, d: nat)
    requires p > 0 && q > 0 && d == q * p && rest < p
    ensures (a * p + rest) / d == a / q
  {
    var h, r := a / q, a % q;
    Combine(h, q, p, r);
    RemainderFits(r, q, p, rest);
    DivUnique(a * p + rest, d, h, r * p + rest);
  }

  /** A match is only ever reported for a prefix mask. */
  lemma {:induction false} MatchNeedsPrefixMask(name: Bytes, address: Bytes, mask: Bytes, seenZeroBit: bool) returns (n: nat)
    requires |name| == |address| == |mask|
    requires CidrLoop(name, address, mask, seenZeroBit) == Ok(true)
    ensures n <= 8 * |mask| && mask == PrefixMask(|mask|, n)
    ensures seenZeroBit ==> n == 0
  {
    if name == [] {
      n := 0;
    } else {
      var rest := MatchNeedsPrefixMask(name[1..], address[1..], mask[1..], seenZeroBit || mask[0] != 0xff);
      ByteMasks(mask[0]);
      assert mask == [mask[0]] + mask[1..];
      if mask[0] == 0xff {
        n := rest + 8;
      } else {
        n :| n < 8 && mask[0] == PartialMask(n);
        AllZeros(|mask| - 1);
      }
    }
  }

  lemma AllZeros(size: nat)
    ensures PrefixMask(size, 0) == seq(size, _ => 0)
  {
  }

  // ----- the result

  /** The mask of a range of 2^(bits - n) addresses. */
  ghost predicate IsPrefixMask(mask: Bytes, n: nat) {
    n <= 8 * |mask| && Big(mask) == Pow2(8 * |mask|) - Pow2(8 * |mask| - n)
  }

  lemma PrefixMaskOctets(mask: Bytes, n: nat)
    ensures IsPrefixMask(mask, n) <==> n <= 8 * |mask| && mask == PrefixMask(|mask|, n)
  {
    hide Big, Pow2, PrefixMask;
    if n <= 8 * |mask| {
      PrefixMaskValue(|mask|, n);
      if IsPrefixMask(mask, n) {
        BigInjective(mask, PrefixMask(|mask|, n));
      }
    }
  }

  ghost predicate IsSomePrefixMask(mask: Bytes) {
    exists n: nat :: IsPrefixMask(mask, n)
  }

  /** The first `k` octets of the mask are one, with `n` one bits, and the first `k + 1` are none. */
  ghost predicate LongestPrefixMask(mask: Bytes, k: nat, n: nat) {
    && k <= |mask| && IsPrefixMask(mask[..k], n)
    && (k < |mask| ==> !IsSomePrefixMask(mask[..k + 1]))
  }

  lemma {:induction false} HasLongestPrefixMask(mask: Bytes, k: nat, n: nat) returns (longest: nat, ones: nat)
    requires k <= |mask| && IsPrefixMask(mask[..k], n)
    ensures LongestPrefixMask(mask, longest, ones)
    decreases |mask| - k
  {
    hide IsPrefixMask;
    if k == |mask| || !IsSomePrefixMask(mask[..k + 1]) {
      longest, ones := k, n;
    } else {
      var m :| IsPrefixMask(mask[..k + 1], m);
      longest, ones := HasLongestPrefixMask(mask, k + 1, m);
    }
  }

  lemma {:induction false} PrefixOfPrefixMask(size: nat, n: nat, j: nat)
    requires n <= 8 * size && j <= size
    ensures |PrefixMask(size, n)| == size
    ensures PrefixMask(size, n)[..j] == PrefixMask(j, if n < 8 * j then n else 8 * j)
  {
    hide PartialMask;
    if size > 0 && n >= 8 {
      PrefixOfPrefixMask(size - 1, n - 8, if j > 0 then j - 1 else 0);
      if j > 0 {
        var mask, rest := PrefixMask(size, n), PrefixMask(size - 1, n - 8);
        assert mask == [0xff] + rest;
        assert mask[..j] == [0xff] + rest[..j - 1];
      }
    } else if j > 0 {
      assert PrefixMask(size, n)[..j] == [PartialMask(n)] + seq(j - 1, _ => 0);
    }
  }

  lemma {:induction false} OnesAreUnique(size: nat, n: nat, m: nat)
    requires n <= 8 * size && m <= 8 * size && PrefixMask(size, n) == PrefixMask(size, m)
    ensures n == m
    decreases size
  {
    if size > 0 {
      assert PrefixMask(size, n)[0] == PrefixMask(size, m)[0];
      if n >= 8 {
        assert PrefixMask(size, n)[1..] == PrefixMask(size, m)[1..];
        OnesAreUnique(size - 1, n - 8, m - 8);
      }
    }
  }

  lemma ShorterPartIsPrefixMask(mask: Bytes, k: nat, j: nat)
    requires j <= k <= |mask| && IsSomePrefixMask(mask[..k])
    ensures IsSomePrefixMask(mask[..j])
  {
    hide IsPrefixMask, PrefixMask;
    var n: nat :| IsPrefixMask(mask[..k], n);
    PrefixMaskOctets(mask[..k], n);
    PrefixOfPrefixMask(k, n, j);
    PrefixMaskOctets(mask[..j], if n < 8 * j then n else 8 * j);
    assert mask[..k][..j] == mask[..j];
  }

  lemma OneLongestPrefixMask(mask: Bytes, k: nat, n: nat, j: nat, m: nat)
    requires LongestPrefixMask(mask, k, n) && LongestPrefixMask(mask, j, m)
    ensures k == j && n == m
  {
    hide IsPrefixMask, PrefixMask;
    if k < j {
      ShorterPartIsPrefixMask(mask, j, k + 1);
    } else if j < k {
      ShorterPartIsPrefixMask(mask, k, j + 1);
    } else {
      PrefixMaskOctets(mask[..k], n);
      PrefixMaskOctets(mask[..k], m);
      OnesAreUnique(k, n, m);
    }
  }

  lemma NoOctets(mask: Bytes)
    ensures IsPrefixMask(mask[..0], 0)
  {
    assert Big([]) == 0;
  }

  function SeenZero(mask: Bytes): bool {
    mask != [] && (mask[0] != 0xff || SeenZero(mask[1..]))
  }

  /** The loop over the first octets and then over the others. */
  lemma {:induction false} LoopThen(name: Bytes, address: Bytes, mask: Bytes, seen: bool, k: nat)
    requires |name| == |address| == |mask| && k <= |mask|
    requires CidrLoop(name[..k], address[..k], mask[..k], seen).Ok?
    ensures CidrLoop(name, address, mask, seen)
         == if !CidrLoop(name[..k], address[..k], mask[..k], seen).value then Ok(false)
            else CidrLoop(name[k..], address[k..], mask[k..], seen || SeenZero(mask[..k]))
    decreases k
  {
    hide DifferUnder, LeadingOnes, TrailingZeros;
    if k == 0 {
      assert name[0..] == name && address[0..] == address && mask[0..] == mask;
    } else {
      assert name[..k][1..] == name[1..][..k - 1] && address[..k][1..] == address[1..][..k - 1] && mask[..k][1..] == mask[1..][..k - 1];
      if !DifferUnder(name[0], address[0], mask[0]) {
        LoopThen(name[1..], address[1..], mask[1..], seen || mask[0] != 0xff, k - 1);
        assert name[1..][k - 1..] == name[k..] && address[1..][k - 1..] == address[k..] && mask[1..][k - 1..] == mask[k..];
      }
    }
  }

  lemma {:induction false} ZerosInPrefixMask(size: nat, n: nat)
    requires n <= 8 * size
    ensures |PrefixMask(size, n)| == size
    ensures SeenZero(PrefixMask(size, n)) <==> n < 8 * size
    ensures n < 8 * size ==> PrefixMask(size, n) + [0] == PrefixMask(size + 1, n)
    ensures n == 8 * size ==> PrefixMask(size, n) + [0xff] == PrefixMask(size + 1, n + 8)
    ensures n == 8 * size ==> forall m: nat :: m < 8 ==> PrefixMask(size, n) + [PartialMask(m)] == PrefixMask(size + 1, n + m)
    decreases size
  {
    hide PartialMask;
    if size > 0 && n >= 8 {
      ZerosInPrefixMask(size - 1, n - 8);
      var mask, rest := PrefixMask(size, n), PrefixMask(size - 1, n - 8);
      assert mask[1..] == rest;
      forall b: Byte
        ensures mask + [b] == [0xff] + (rest + [b])
      {
      }
    } else if size > 0 {
      PartialIsNotFull(n);
    }
  }

  lemma PartialIsNotFull(n: nat)
    requires n < 8
    ensures PartialMask(n) != 0xff
  {
  }

  /** An octet that the loop lets pass prolongs the prefix mask. */
  lemma OctetProlongs(mask: Bytes, n: nat, b: Byte)
    requires IsPrefixMask(mask, n)
    requires LeadingOnes(b) + TrailingZeros(b) == 8 && (SeenZero(mask) ==> b == 0)
    ensures IsSomePrefixMask(mask + [b])
  {
    hide IsPrefixMask, LeadingOnes, TrailingZeros, PartialMask;
    PrefixMaskOctets(mask, n);
    ZerosInPrefixMask(|mask|, n);
    ByteMasks(b);
    var m := if SeenZero(mask) then n
             else if b == 0xff then n + 8
             else var j :| j < 8 && b == PartialMask(j); n + j;
    PrefixMaskOctets(mask + [b], m);
  }

  lemma BadOctetEnds(name: Bytes, address: Bytes, mask: Bytes, k: nat, n: nat)
    requires |name| == |address| == |mask| && k < |mask| && LongestPrefixMask(mask, k, n)
    ensures CidrLoop(name[k..], address[k..], mask[k..], SeenZero(mask[..k])) == Err(InvalidNetworkMaskConstraint)
  {
    hide IsPrefixMask, LeadingOnes, TrailingZeros, SeenZero, DifferUnder;
    assert mask[..k + 1] == mask[..k] + [mask[k]];
    if LeadingOnes(mask[k]) + TrailingZeros(mask[k]) == 8 && (SeenZero(mask[..k]) ==> mask[k] == 0) {
      OctetProlongs(mask[..k], n, mask[k]);
    }
  }

  /** The loop compares under the longest part of the mask that is a prefix mask. If name and address
      differ there the answer is no, whatever follows; else it is yes for a prefix mask and the error
      for any other. */
  lemma LoopExactly(name: Bytes, address: Bytes, mask: Bytes, k: nat, n: nat)
    requires |name| == |address| == |mask| && LongestPrefixMask(mask, k, n)
    ensures
      var low := 8 * k - n;
      CidrLoop(name, address, mask, false)
      == if Above(name[..k], low) != Above(address[..k], low) then Ok(false)
         else if k == |mask| then Ok(true)
         else Err(InvalidNetworkMaskConstraint)
  {
    hide IsPrefixMask, Above, PrefixMask, SeenZero, DifferUnder, LeadingOnes, TrailingZeros;
    PrefixMaskOctets(mask[..k], n);
    PrefixMatchIsDivision(name[..k], address[..k], n);
    LoopThen(name, address, mask, false, k);
    if k < |mask| {
      BadOctetEnds(name, address, mask, k, n);
    }
  }

  /** The answer of the matcher for every pair of lengths and every mask. */
  lemma ConstraintExactly(name: Bytes, constraint: Bytes) returns (k: nat, n: nat)
    ensures
      var answer := MatchesConstraint(name, constraint);
      if |name| != 4 && |name| != 16 then answer == Err(BadDer)
      else if |constraint| != 8 && |constraint| != 32 then answer == Err(InvalidNetworkMaskConstraint)
      else if |constraint| != 2 * |name| then answer == Ok(false)
      else
        var address, mask := constraint[..|name|], constraint[|name|..];
        var low := 8 * k - n;
        && LongestPrefixMask(mask, k, n)
        && answer == if Above(name[..k], low) != Above(address[..k], low) then Ok(false)
                     else if k == |mask| then Ok(true)
                     else Err(InvalidNetworkMaskConstraint)
  {
    hide CidrLoop, Above, IsPrefixMask;
    k, n := 0, 0;
    if |name| in {4, 16} && |constraint| == 2 * |name| {
      var mask := constraint[|name|..];
      NoOctets(mask);
      k, n := HasLongestPrefixMask(mask, 0, 0);
      LoopExactly(name, constraint[..|name|], mask, k, n);
    }
  }

  /** For a prefix mask the answer is whether name and address agree as integers above the last
      bits; for every other mask the answer is never `Ok(true)`. */
  lemma CidrIsIntegerArithmetic(name: Bytes, constraint: Bytes, n: nat)
    requires |constraint| == 2 * |name| && |name| in {4, 16}
    ensures
      var address, mask := constraint[..|name|], constraint[|name|..];
      IsPrefixMask(mask, n) ==>
        var low := 8 * |name| - n;
        MatchesConstraint(name, constraint) == Ok(Above(name, low) == Above(address, low))
    ensures MatchesConstraint(name, constraint) == Ok(true) ==> exists k :: IsPrefixMask(constraint[|name|..], k)
  {
    hide Above, Big, CidrLoop, Pow2, PrefixMask;
    var address, mask := constraint[..|name|], constraint[|name|..];
    if IsPrefixMask(mask, n) {
      PrefixMaskValue(|name|, n);
      BigInjective(mask, PrefixMask(|name|, n));
      PrefixMatchIsDivision(name, address, n);
    }
    if MatchesConstraint(name, constraint) == Ok(true) {
      var k := MatchNeedsPrefixMask(name, address, mask, false);
      PrefixMaskValue(|name|, k);
      assert IsPrefixMask(mask, k);
    }
  }
}
