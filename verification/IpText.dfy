/** Reading and printing IP addresses as text (src/subject_name/ip_address.rs). */
module IpText {
  import opened Basics
  import opened Readers
  import opened DnsNames

  const COLON: Byte := ':' as int

  // ----- IPv6

  predicate IsHex(b: Byte) {
    IsDigit(b) || 'a' as int <= b <= 'f' as int || 'A' as int <= b <= 'F' as int
  }

  function HexValue(b: Byte): (v: nat)
    requires IsHex(b)
    ensures v < 16
  {
    if IsDigit(b) then b - '0' as int
    else if b >= 'a' as int then b - 'a' as int + 10
    else b - 'A' as int + 10
  }

  function HexChar(n: nat): Byte
    requires n < 16
  {
    if n < 10 then '0' as int + n else 'a' as int + n - 10
  }

  /** Where the `k`-th hexadecimal digit of an uncompressed address stands. */
  function DigitAt(k: nat): nat {
    k / 4 * 5 + k % 4
  }

  /** Every fifth byte is a colon, the others are hexadecimal digits. */
  predicate PlaceOk(i: nat, b: Byte) {
    if i % 5 == 4 then b == COLON else IsHex(b)
  }

  /** Eight blocks of four hexadecimal digits, joined by colons. */
  predicate IsV6Text(text: Bytes) {
    |text| == 39 && forall i :: 0 <= i < 39 ==> PlaceOk(i, text[i])
  }

  function OctetAt(text: Bytes, k: nat): Byte
    requires IsV6Text(text) && k < 16
  {
    HexValue(text[DigitAt(2 * k)]) * 16 + HexValue(text[DigitAt(2 * k + 1)])
  }

  function OctetsOf(text: Bytes): Bytes
    requires IsV6Text(text)
  {
    seq(16, k requires 0 <= k < 16 => OctetAt(text, k))
  }

  function ParseV6(text: Bytes): Option<Bytes> {
    if IsV6Text(text) then Some(OctetsOf(text)) else None
  }

  function NibbleOf(octets: Bytes, k: nat): nat
    requires |octets| == 16 && k < 32
  {
    if k % 2 == 0 then octets[k / 2] / 16 else octets[k / 2] % 16
  }

  function PrintedAt(octets: Bytes, i: nat): Byte
    requires |octets| == 16 && i < 39
  {
    if i % 5 == 4 then COLON else HexChar(NibbleOf(octets, i / 5 * 4 + i % 5))
  }

  function PrintV6(octets: Bytes): Bytes
    requires |octets| == 16
  {
    seq(39, i requires 0 <= i < 39 => PrintedAt(octets, i))
  }

  /** `{:02x?}` */
  function TwoHexDigits(octet: Byte): Bytes {
    [HexChar(octet / 16), HexChar(octet % 16)]
  }

  /** `ipv6_to_uncompressed_string` */
  method Ipv6ToUncompressedString(octets: Bytes) returns (text: Bytes)
    requires |octets| == 16
    ensures text == PrintV6(octets)
  {
    text := [];
    for i := 0 to 7
      invariant text == PrintV6(octets)[..5 * i]
    {
      text := text + TwoHexDigits(octets[i * 2]) + TwoHexDigits(octets[i * 2 + 1]) + [COLON];
    }
    text := text + TwoHexDigits(octets[14]) + TwoHexDigits(octets[15]);
  }

  lemma OctetRead(text: Bytes, colonCount: nat, blockSize: nat)
    requires colonCount < 8 && blockSize in {1, 3}
    ensures
      var at := 5 * colonCount + blockSize;
      IsV6Text(text) ==>
        OctetAt(text, 2 * colonCount + blockSize / 2) == HexValue(text[at - 1]) * 16 + HexValue(text[at])
  {
    var k := 2 * colonCount + blockSize / 2;
    assert DigitAt(2 * k) == 5 * colonCount + blockSize - 1;
    assert DigitAt(2 * k + 1) == 5 * colonCount + blockSize;
  }

  lemma PlaceInBlock(colonCount: nat, blockSize: nat, b: Byte)
    requires blockSize <= 4
    ensures PlaceOk(5 * colonCount + blockSize, b) <==> if blockSize == 4 then b == COLON else IsHex(b)
    ensures !IsHex(COLON)
  {
  }

  /** `parse_ipv6_address`; the octets are filled in place. */
  method ParseIpv6Address(text: Bytes) returns (res: Option<Bytes>)
    ensures res == ParseV6(text)
  {
    hide OctetAt, HexValue, IsHex, PlaceOk;
    if |text| != 39 {
      return None;
    }
    var input := new Reader(text);
    var isFirstByte := true;
    var blockSize := 0;
    var colonCount := 0;
    var octet := 0;
    var previous: Option<Byte> := None;
    var octets := new Byte[16](_ => 0);
    while true
      invariant input.Valid() && input.pos < 39 && fresh(octets) && octets.Length == 16
      invariant isFirstByte == (input.pos == 0)
      invariant input.pos == 5 * colonCount + blockSize && 0 <= colonCount && 0 <= blockSize <= 4
      invariant octet == 2 * colonCount + blockSize / 2
      invariant forall i :: 0 <= i < input.pos ==> PlaceOk(i, text[i])
      invariant blockSize in {1, 3} ==> previous == Some(text[input.pos - 1]) && IsHex(text[input.pos - 1])
      invariant blockSize !in {1, 3} ==> previous == None
      invariant IsV6Text(text) ==> forall k :: 0 <= k < octet ==> octets[k] == OctetAt(text, k)
      decreases |text| - input.pos
    {
      var b := input.ReadByte();
      PlaceInBlock(colonCount, blockSize, b.value);
      if b == Some(COLON) {
        if isFirstByte || input.AtEnd() || colonCount == 7 {
          return None;
        }
        colonCount := colonCount + 1;
        if blockSize == 0 || blockSize != 4 {
          return None;
        }
        blockSize := 0;
        previous := None;
      } else if IsHex(b.value) {
        if blockSize == 4 {
          return None;
        }
        if previous.Some? {
          OctetRead(text, colonCount, blockSize);
          octets[octet] := HexValue(previous.value) * 16 + HexValue(b.value);
          previous := None;
          octet := octet + 1;
        } else {
          previous := Some(b.value);
        }
        blockSize := blockSize + 1;
      } else {
        return None;
      }
      isFirstByte := false;
      if input.AtEnd() {
        break;
      }
    }
    assert octets[..] == OctetsOf(text);
    if colonCount != 7 {
      return None;
    }
    return Some(octets[..]);
  }

  /** `text` is the printed form of `octets`, up to the case of its letters. */
  predicate PrintsAs(text: Bytes, octets: Bytes) {
    && |octets| == 16 && |text| == 39
    && forall i :: 0 <= i < 39 ==> AsciiLower(text[i]) == PrintV6(octets)[i]
  }

  /** Parsing and printing undo each other: the accepted texts are the printed forms up to the case
      of their letters, and they are read as the octets they print. */
  lemma V6ParseIsPrintInverse(text: Bytes, octets: Bytes)
    ensures ParseV6(text) == Some(octets) <==> PrintsAs(text, octets)
  {
    if IsV6Text(text) {
      V6PrintOfParse(text);
    }
    if PrintsAs(text, octets) {
      V6ParseOfPrint(text, octets);
    }
  }

  /** The digit at position `i` is number `k`, one of the two digits of octet `k / 2`. */
  lemma DigitNumber(i: nat, k: nat)
    requires i < 39 && i % 5 != 4 && k == i / 5 * 4 + i % 5
    ensures k < 32 && DigitAt(k) == i
    ensures k % 2 == 0 ==> DigitAt(2 * (k / 2)) == i
    ensures k % 2 == 1 ==> DigitAt(2 * (k / 2) + 1) == i
  {
  }

  lemma DigitPosition(k: nat, i: nat)
    requires k < 32 && i == DigitAt(k)
    ensures i < 39 && i % 5 != 4 && i / 5 * 4 + i % 5 == k
  {
  }

  lemma V6PrintOfParse(text: Bytes)
    requires IsV6Text(text)
    ensures PrintsAs(text, OctetsOf(text))
  {
    hide DigitAt, HexValue, HexChar, AsciiLower;
    var octets := OctetsOf(text);
    forall i | 0 <= i < 39
      ensures AsciiLower(text[i]) == PrintedAt(octets, i)
    {
      if i % 5 == 4 {
        ColonIsKept();
      } else {
        var k := i / 5 * 4 + i % 5;
        DigitNumber(i, k);
        HexRoundTrip(text[i]);
        NibbleOfOctet(text, octets, k);
      }
    }
  }

  lemma ColonIsKept()
    ensures forall b: Byte :: AsciiLower(b) == COLON <==> b == COLON
  {
  }

  lemma NibbleOfOctet(text: Bytes, octets: Bytes, k: nat)
    requires IsV6Text(text) && octets == OctetsOf(text) && k < 32
    ensures DigitAt(k) < 39 && IsHex(text[DigitAt(k)]) && NibbleOf(octets, k) == HexValue(text[DigitAt(k)])
  {
    hide DigitAt, HexValue;
    DigitPosition(k, DigitAt(k));
    assert octets[k / 2] == OctetAt(text, k / 2);
    if k % 2 == 0 {
      assert 2 * (k / 2) == k;
    } else {
      assert 2 * (k / 2) + 1 == k;
    }
  }

  lemma V6ParseOfPrint(text: Bytes, octets: Bytes)
    requires PrintsAs(text, octets)
    ensures IsV6Text(text) && OctetsOf(text) == octets
  {
    hide DigitAt, HexValue, HexChar, AsciiLower, IsHex;
    ColonIsKept();
    forall i | 0 <= i < 39
      ensures i % 5 == 4 ==> text[i] == COLON
      ensures i % 5 != 4 ==> IsHex(text[i]) && HexValue(text[i]) == NibbleOf(octets, i / 5 * 4 + i % 5)
    {
      assert PrintV6(octets)[i] == PrintedAt(octets, i);
      if i % 5 != 4 {
        HexCharRead(text[i], NibbleOf(octets, i / 5 * 4 + i % 5));
      }
    }
    forall k | 0 <= k < 16
      ensures OctetAt(text, k) == octets[k]
    {
      DigitPosition(2 * k, DigitAt(2 * k));
      DigitPosition(2 * k + 1, DigitAt(2 * k + 1));
    }
  }

  lemma HexRoundTrip(b: Byte)
    requires IsHex(b)
    ensures HexChar(HexValue(b)) == AsciiLower(b)
  {
  }

  lemma HexCharRead(b: Byte, n: nat)
    requires n < 16 && AsciiLower(b) == HexChar(n)
    ensures IsHex(b) && HexValue(b) == n
  {
  }

  // ----- IPv4

  /** The number that decimal digits spell. */
  function Radix10(digits: seq<int>): int {
    if digits == [] then 0 else Radix10(digits[..|digits| - 1]) * 10 + digits[|digits| - 1]
  }

  function Digits(word: Bytes): seq<int> {
    seq(|word|, i requires 0 <= i < |word| => word[i] - '0' as int)
  }

  function Decimal(word: Bytes): int {
    Radix10(Digits(word))
  }

  predicate IsDecimalOctet(word: Bytes) {
    && 1 <= |word| <= 3
    && (forall i :: 0 <= i < |word| ==> IsDigit(word[i]))
    && (word[0] == '0' as int ==> |word| == 1)
    && Decimal(word) <= 255
  }

  predicate IsV4Text(text: Bytes) {
    |Split(text)| == 4 && forall i :: 0 <= i < 4 ==> IsDecimalOctet(Split(text)[i])
  }

  function PrintDecimal(n: Byte): Bytes {
    if n < 10 then ['0' as int + n]
    else if n < 100 then ['0' as int + n / 10, '0' as int + n % 10]
    else ['0' as int + n / 100, '0' as int + n / 10 % 10, '0' as int + n % 10]
  }

  /** The dotted form of four octets. */
  function PrintV4(octets: Bytes): Bytes
    requires |octets| == 4
  {
    Join([PrintDecimal(octets[0]), PrintDecimal(octets[1]), PrintDecimal(octets[2]), PrintDecimal(octets[3])])
  }

  lemma DecimalOfPrint(n: Byte)
    ensures IsDecimalOctet(PrintDecimal(n)) && Decimal(PrintDecimal(n)) == n
    ensures DOT !in PrintDecimal(n)
  {
    var word := PrintDecimal(n);
    DecimalOfFew(word);
  }

  lemma DecimalOfFew(word: Bytes)
    ensures |word| == 1 ==> Decimal(word) == Digits(word)[0]
    ensures |word| == 2 ==> Decimal(word) == Digits(word)[0] * 10 + Digits(word)[1]
    ensures |word| == 3 ==> Decimal(word) == Digits(word)[0] * 100 + Digits(word)[1] * 10 + Digits(word)[2]
  {
    var d := Digits(word);
    assert |d| == |word|;
    hide Digits;
    if 1 <= |d| <= 3 {
      RadixOfThree(d);
    }
  }

  lemma RadixOfThree(d: seq<int>)
    requires 1 <= |d| <= 3
    ensures Radix10(d) == if |d| == 1 then d[0]
                          else if |d| == 2 then d[0] * 10 + d[1]
                          else d[0] * 100 + d[1] * 10 + d[2]
  {
    if |d| > 1 {
      RadixOfThree(d[..|d| - 1]);
    } else {
      assert d[..0] == [];
    }
  }

  lemma PrintOfDecimal(word: Bytes)
    requires IsDecimalOctet(word)
    ensures 0 <= Decimal(word) && PrintDecimal(Decimal(word)) == word
  {
    DecimalOfFew(word);
    var d := Digits(word);
    assert forall i :: 0 <= i < |word| ==> 0 <= d[i] <= 9 && word[i] == '0' as int + d[i];
    hide Decimal, Digits, IsDigit;
    if |word| == 3 {
      DigitsOfThree(d[0], d[1], d[2]);
    } else if |word| == 2 {
      DigitsOfThree(0, d[0], d[1]);
    }
  }

  lemma DigitsOfThree(a: nat, b: nat, c: nat)
    requires a <= 9 && b <= 9 && c <= 9
    ensures var n := a * 100 + b * 10 + c; n / 100 == a && n / 10 == a * 10 + b && n / 10 % 10 == b && n % 10 == c
  {
  }

  function OctetValue(word: Bytes): Byte
    requires IsDecimalOctet(word)
  {
    PrintOfDecimal(word);
    Decimal(word)
  }

  function ParseV4(text: Bytes): Option<Bytes> {
    if IsV4Text(text) then Some(seq(4, i requires 0 <= i < 4 => OctetValue(Split(text)[i]))) else None
  }

  /** The IPv4 parser accepts exactly the dotted forms, and reads back the octets. */
  lemma V4ParseIsPrintInverse(text: Bytes, octets: Bytes)
    requires |octets| == 4
    ensures ParseV4(text) == Some(octets) <==> text == PrintV4(octets)
  {
    hide IsDecimalOctet, Decimal, Split, Join, PrintDecimal;
    var words := [PrintDecimal(octets[0]), PrintDecimal(octets[1]), PrintDecimal(octets[2]), PrintDecimal(octets[3])];
    forall i | 0 <= i < 4
      ensures words[i] == PrintDecimal(octets[i]) && IsDecimalOctet(words[i]) && Decimal(words[i]) == octets[i]
      ensures DOT !in words[i]
    {
      DecimalOfPrint(octets[i]);
    }
    SplitOfJoin(words);
    if ParseV4(text) == Some(octets) {
      JoinOfSplit(text);
      forall i | 0 <= i < 4
        ensures Split(text)[i] == words[i]
      {
        assert ParseV4(text).value[i] == octets[i];
        PrintOfDecimal(Split(text)[i]);
      }
      assert Split(text) == words;
    }
    if text == PrintV4(octets) {
      assert Split(text) == words;
      assert ParseV4(text).value == octets;
    }
  }

  // ----- the IPv4 parser

  /** `radix10_to_octet` */
  method Radix10ToOctet(digits: seq<int>) returns (result: int)
    ensures result == Radix10(digits)
  {
    result := 0;
    for i := 0 to |digits|
      invariant result == Radix10(digits[..i])
    {
      assert digits[..i + 1][..i] == digits[..i];
      result := result * 10;
      result := result + digits[i];
    }
    assert digits[..|digits|] == digits;
  }

  /** What the loop knows about the labels it has read. */
  ghost predicate V4State(labels: seq<Bytes>, octets: Bytes, octet: nat, current: seq<int>) {
    && |labels| == octet + 1 && octet <= 3 && |octets| == 4
    && (forall i :: 0 <= i < octet ==> IsDecimalOctet(labels[i]) && octets[i] == Decimal(labels[i]))
    && |labels[octet]| <= 3
    && current == Digits(labels[octet])
    && (forall j :: 0 <= j < |labels[octet]| ==> IsDigit(labels[octet][j]))
  }

  lemma V4Dot(labels: seq<Bytes>, octets: Bytes, octet: nat, current: seq<int>)
    requires V4State(labels, octets, octet, current) && octet < 3
    requires IsDecimalOctet(labels[octet]) && 0 <= Radix10(current) < 256
    ensures V4State(labels + [[]], octets[octet := Radix10(current) as Byte], octet + 1, [])
  {
    hide IsDecimalOctet, Radix10;
  }

  lemma V4Digit(labels: seq<Bytes>, octets: Bytes, octet: nat, current: seq<int>, b: Byte)
    requires V4State(labels, octets, octet, current) && |current| < 3 && IsDigit(b)
    ensures V4State(Grow(labels, b), octets, octet, current + [b - '0' as int])
  {
    hide IsDecimalOctet, Radix10;
    var word := labels[octet] + [b];
    assert Digits(word) == current + [b - '0' as int];
  }

  /** A finished part that is no octet, or more than four parts, reject the text. */
  lemma V4FinishedRejects(text: Bytes, pos: nat)
    requires pos <= |text|
    requires
      var labels := Split(text[..pos]);
      |labels| > 4 || (|labels| >= 2 && !IsDecimalOctet(labels[|labels| - 2]))
    ensures !IsV4Text(text)
  {
    hide IsDecimalOctet, Split;
    SplitOfPrefix(text, pos);
  }

  /** A part that can no longer become an octet rejects the text. */
  lemma V4HopelessRejects(text: Bytes, pos: nat)
    requires pos <= |text|
    requires
      var labels := Split(text[..pos]);
      var word := labels[|labels| - 1];
      word != [] && (|word| > 3 || !IsDigit(word[|word| - 1]) || (|word| >= 2 && word[0] == '0' as int))
    ensures !IsV4Text(text)
  {
    hide Split, Decimal;
    SplitOfPrefix(text, pos);
    var labels := Split(text[..pos]);
    var k := |labels| - 1;
    assert labels[k][0] == Split(text)[k][0] && labels[k][|labels[k]| - 1] == Split(text)[k][|labels[k]| - 1];
    assert !IsDecimalOctet(Split(text)[k]);
  }

  predicate LeadingZeroOk(text: Bytes, pos: nat, current: seq<int>) {
    current != [] && current[0] == 0 ==> |current| == 1 && (pos < |text| ==> text[pos] == DOT)
  }

  lemma V4Start(octets: Bytes)
    requires |octets| == 4
    ensures V4State(Split([]), octets, 0, [])
  {
  }

  lemma EmptyIsNoV4()
    ensures !IsV4Text([])
  {
  }

  lemma V4Facts(labels: seq<Bytes>, octets: Bytes, octet: nat, current: seq<int>)
    requires V4State(labels, octets, octet, current)
    ensures |labels| == octet + 1 && |labels[octet]| == |current|
    ensures 0 <= Radix10(current)
    ensures IsDecimalOctet(labels[octet]) <==>
            current != [] && (current[0] == 0 ==> |current| == 1) && Radix10(current) <= 255
    ensures !IsDigit(DOT) && !IsDecimalOctet([])
  {
    DecimalOfFew(labels[octet]);
    hide Radix10;
    assert current == [] ==> Radix10([]) == 0 by {
      RadixOfNothing();
    }
  }

  lemma RadixOfNothing()
    ensures Radix10([]) == 0
  {
  }

  lemma V4LastRejects(text: Bytes)
    requires !IsDecimalOctet(Split(text)[|Split(text)| - 1])
    ensures !IsV4Text(text)
  {
  }

  lemma V4LeadingZero(text: Bytes, pos: nat)
    requires pos + 1 < |text| && text[pos] == '0' as int && text[pos + 1] != DOT
    requires Split(text[..pos])[|Split(text[..pos])| - 1] == []
    ensures !IsV4Text(text)
  {
    SplitStep(text, pos);
    SplitStep(text, pos + 1);
    hide Split;
    V4HopelessRejects(text, pos + 2);
  }

  /** At the end of the text everything but the number of parts has been checked. */
  lemma V4End(text: Bytes, octets: Bytes, octet: nat, current: seq<int>)
    requires V4State(Split(text), octets, octet, current)
    requires IsDecimalOctet(Split(text)[octet]) && 0 <= Radix10(current) < 256
    ensures ParseV4(text) == if octet == 3 then Some(octets[3 := Radix10(current) as Byte]) else None
  {
    hide Split, Radix10;
    if octet == 3 {
      forall i | 0 <= i < 4
        ensures IsDecimalOctet(Split(text)[i])
        ensures octets[3 := Radix10(current) as Byte][i] == OctetValue(Split(text)[i])
      {
      }
      assert ParseV4(text).value == octets[3 := Radix10(current) as Byte];
    }
  }

  /** What is done at the end of the text: the last part has no dot behind it. */
  method TakeLastOctet(text: Bytes, octets: array<Byte>, octet: nat, currentOctet: array<int>, currentSize: nat) returns (res: Option<Bytes>)
    requires octets.Length == 4 && currentOctet.Length == 3 && octet <= 3 && 0 < currentSize <= 3
    requires V4State(Split(text), octets[..], octet, currentOctet[..currentSize])
    requires LeadingZeroOk(text, |text|, currentOctet[..currentSize])
    modifies octets
    ensures res == ParseV4(text)
  {
    hide V4State, Split, IsDecimalOctet, Radix10, IsDigit;
    ghost var before, current := octets[..], currentOctet[..currentSize];
    V4Facts(Split(text), before, octet, current);
    var last := Radix10ToOctet(currentOctet[..currentSize]);
    if currentSize > 0 && last > 255 {
      V4LastRejects(text);
      return None;
    }
    octets[octet] := last;
    assert octets[..] == before[octet := last as Byte];
    V4End(text, before, octet, current);
    if octet != 3 {
      return None;
    }
    return Some(octets[..]);
  }

  /** `parse_ipv4_address`; the digits of the current part and the octets are filled in place. */
  method ParseIpv4Address(text: Bytes) returns (res: Option<Bytes>)
    ensures res == ParseV4(text)
  {
    hide IsV4Text, IsDecimalOctet, Split, Radix10, Decimal, V4State, IsDigit;
    var input := new Reader(text);
    var isFirstByte := true;
    var currentOctet := new int[3](_ => 0);
    var currentSize := 0;
    var dotCount := 0;
    var octet := 0;
    var octets := new Byte[4](_ => 0);
    V4Start(octets[..]);
    assert text[..0] == [] && currentOctet[..0] == [];
    while true
      invariant input.Valid() && fresh(octets) && fresh(currentOctet)
      invariant octets.Length == 4 && currentOctet.Length == 3
      invariant octets as object != currentOctet as object
      invariant isFirstByte == (input.pos == 0) && (input.AtEnd() ==> text == [])
      invariant isFirstByte ==> currentSize == 0
      invariant octet == dotCount && 0 <= octet <= 3 && 0 <= currentSize <= 3
      invariant V4State(Split(text[..input.pos]), octets[..], octet, currentOctet[..currentSize])
      invariant LeadingZeroOk(text, input.pos, currentOctet[..currentSize])
      decreases |text| - input.pos
    {
      ghost var pos, labels := input.pos, Split(text[..input.pos]);
      ghost var octetsBefore, current := octets[..], currentOctet[..currentSize];
      V4Facts(labels, octetsBefore, octet, current);
      var b := input.ReadByte();
      if b.None? {
        EmptyIsNoV4();
        return None;
      }
      SplitStep(text, pos);
      if b.value == DOT {
        if isFirstByte {
          V4FinishedRejects(text, pos + 1);
          return None;
        }
        if input.AtEnd() {
          assert text[..pos + 1] == text;
          V4LastRejects(text);
          return None;
        }
        if dotCount == 3 {
          V4FinishedRejects(text, pos + 1);
          return None;
        }
        dotCount := dotCount + 1;
        if currentSize == 0 {
          V4FinishedRejects(text, pos + 1);
          return None;
        }
        var raw := Radix10ToOctet(currentOctet[..currentSize]);
        if raw > 255 {
          V4FinishedRejects(text, pos + 1);
          return None;
        }
        octets[octet] := raw;
        V4Dot(labels, octetsBefore, octet, current);
        octet := octet + 1;
        currentOctet[0], currentOctet[1], currentOctet[2] := 0, 0, 0;
        currentSize := 0;
        assert octets[..] == octetsBefore[octet - 1 := raw as Byte];
        assert currentOctet[..currentSize] == [];
      } else if IsDigit(b.value) {
        if b.value == '0' as int && currentSize == 0 && !input.Peek(DOT) && !input.AtEnd() {
          V4LeadingZero(text, pos);
          return None;
        }
        if currentSize >= currentOctet.Length {
          V4HopelessRejects(text, pos + 1);
          return None;
        }
        currentOctet[currentSize] := b.value - '0' as int;
        V4Digit(labels, octetsBefore, octet, current, b.value);
        currentSize := currentSize + 1;
        assert currentOctet[..currentSize] == current + [b.value - '0' as int];
        assert octets[..] == octetsBefore;
      } else {
        V4HopelessRejects(text, pos + 1);
        return None;
      }
      isFirstByte := false;
      if input.AtEnd() {
        assert text[..input.pos] == text;
        break;
      }
    }
    res := TakeLastOctet(text, octets, octet, currentOctet, currentSize);
  }
}
