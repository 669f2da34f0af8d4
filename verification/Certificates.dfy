/** Parsed certificates and the checks that look at one certificate only (src/cert.rs, src/verify_cert.rs). */
module Certificates {
  import opened Basics
  import opened Der
  import opened Readers
  import Time

  /** Data, algorithm identifier and signature, as they are handed to the signature algorithm. */
  datatype SignedData = SignedData(data: Bytes, algorithm: Bytes, signature: Bytes)

  /** One distribution point of a certificate: where its CRLs are, and whether it is for some
      revocation reasons or for an issuer of indirect CRLs only. The contents of the reasons are kept as
      bytes, because reading them may abort. */
  datatype CrlDistributionPoint = CrlDistributionPoint(
    distributionPoint: Option<Bytes>,
    reasons: Option<Bytes>,
    crlIssuer: Option<Bytes>)

  /** The fields of one certificate. Extension values are kept as the bytes inside their outer tag;
      the distribution points are what iterating over that extension yields, an error standing for a
      point that is found malformed before its reasons are read. */
  datatype Parsed = Parsed(
    serial: Bytes,
    signedData: SignedData,
    issuer: Bytes,
    validity: Bytes,
    subject: Bytes,
    spki: Bytes,
    basicConstraints: Option<Bytes>,
    keyUsage: Option<Bytes>,
    eku: Option<Bytes>,
    nameConstraints: Option<Bytes>,
    subjectAltName: Option<Bytes>,
    crlDistributionPoints: Option<seq<Result<CrlDistributionPoint>>>)

  datatype EndEntityOrCa = EndEntity | Ca(child: Cert)

  /** A certificate and the chain of certificates below it, down to the end entity. */
  datatype Cert = Cert(own: Parsed, eeOrCa: EndEntityOrCa) {
    predicate UsedAsCa() {
      eeOrCa.Ca?
    }
  }

  // ----- validity

  function CheckTimes(notBefore: int, notAfter: int, time: int): Outcome {
    if notBefore > notAfter then Err(InvalidCertValidity)
    else if time < notBefore then Err(CertNotValidYet)
    else if time > notAfter then Err(CertExpired)
    else DONE
  }

  /** `check_validity` on the contents of the validity field. */
  function CheckValidity(validity: Bytes, time: int): Outcome {
    var first := Time.FromDer(validity);
    var notBefore :- first.result;
    var second := Time.FromDer(validity[first.used..]);
    var notAfter :- second.result;
    var _ :- CheckTimes(notBefore, notAfter, time);
    if first.used + second.used == |validity| then DONE else Err(BadDer)
  }

  // ----- basic constraints

  datatype BasicConstraints = BasicConstraints(isCa: bool, pathLen: Option<nat>)

  function ReadBasicConstraints(b: Bytes): Step<BasicConstraints> {
    var isCa := BoolFromDer(b);
    if isCa.result.Err? then Step(Err(isCa.result.error), isCa.used)
    else if isCa.used == |b| then Step(Ok(BasicConstraints(isCa.result.value, None)), isCa.used)
    else
      var len := U8FromDer(b[isCa.used..]);
      if len.result.Err? then Step(Err(len.result.error), isCa.used + len.used)
      else Step(Ok(BasicConstraints(isCa.result.value, Some(len.result.value))), isCa.used + len.used)
  }

  /** The decision of `check_basic_constraints`. */
  function Decide(c: BasicConstraints, usedAsCa: bool, subCaCount: nat): Outcome {
    if !usedAsCa && c.isCa then Err(CaUsedAsEndEntity)
    else if usedAsCa && !c.isCa then Err(EndEntityUsedAsCa)
    else if usedAsCa && c.pathLen.Some? && subCaCount > c.pathLen.value then Err(PathLenConstraintViolated)
    else DONE
  }

  function CheckBasicConstraints(value: Option<Bytes>, usedAsCa: bool, subCaCount: nat): Outcome {
    match value
    case None => Decide(BasicConstraints(false, None), usedAsCa, subCaCount)
    case Some(b) =>
      var s := ReadBasicConstraints(b);
      var c :- s.result;
      var _ :- Decide(c, usedAsCa, subCaCount);
      if s.used == |b| then DONE else Err(BadDer)
  }

  // ----- extended key usage

  datatype ExtendedKeyUsage =
    | Required(oid: Bytes)
    | RequiredIfPresent(oid: Bytes)

  /** id-kp-serverAuth, 1.3.6.1.5.5.7.3.1 */
  const EKU_SERVER_AUTH: Bytes := [43, 6, 1, 5, 5, 7, 3, 1]

  function EkuLoop(b: Bytes, oid: Bytes): Outcome
    decreases |b|
  {
    if b == [] then Err(BadDer) else
    var s := ExpectTag(b, TAG_OID);
    var value :- s.result;
    if value == oid then DONE
    else if s.used == |b| then Err(RequiredEkuNotFound)
    else EkuLoop(b[s.used..], oid)
  }

  function CheckEku(value: Option<Bytes>, usage: ExtendedKeyUsage): Outcome {
    match value
    case None => if usage.Required? then Err(RequiredEkuNotFound) else DONE
    case Some(b) => EkuLoop(b, usage.oid)
  }

  /** `ExtendedKeyUsage::check` */
  method EkuCheck(value: Option<Bytes>, usage: ExtendedKeyUsage) returns (res: Outcome)
    ensures res == CheckEku(value, usage)
  {
    if value.None? {
      return if usage.Required? then Err(RequiredEkuNotFound) else DONE;
    }
    hide TlvStep;
    var input := new Reader(value.value);
    assert input.Rest() == value.value;
    while true
      invariant input.Valid() && fresh(input)
      invariant CheckEku(value, usage) == EkuLoop(input.Rest(), usage.oid)
      decreases |input.input| - input.pos
    {
      ghost var rest := input.Rest();
      var oid := ReadExpectedTag(input, TAG_OID);
      if oid.Err? {
        return Err(oid.error);
      }
      if oid.value == usage.oid {
        input.SkipToEnd();
        break;
      }
      if input.AtEnd() {
        return Err(RequiredEkuNotFound);
      }
      assert input.Rest() == rest[ExpectTag(rest, TAG_OID).used..];
    }
    return DONE;
  }

  function OidFromDer(b: Bytes): Step<Bytes> {
    ExpectTag(b, TAG_OID)
  }

  lemma OidProgress()
    ensures Progress(OidFromDer)
  {
  }

  /** The purpose is listed, and nothing in front of it is malformed. */
  ghost predicate ListsPurpose(items: seq<Result<Bytes>>, oid: Bytes) {
    exists k :: ListedAt(items, oid, k)
  }

  predicate ListedAt(items: seq<Result<Bytes>>, oid: Bytes, k: int) {
    0 <= k < |items| && items[k] == Ok(oid) && forall i :: 0 <= i < k ==> items[i].Ok?
  }

  /** The early exit of the loop ignores what stands behind the purpose, and nothing else. */
  lemma {:induction false} EkuMeaning(b: Bytes, oid: Bytes)
    ensures Progress(OidFromDer)
    ensures EkuLoop(b, oid) == DONE <==> ListsPurpose(Items(OidFromDer, b), oid)
    decreases |b|
  {
    OidProgress();
    hide ExpectTag;
    if b != [] {
      var items := Items(OidFromDer, b);
      var rest := b[OidFromDer(b).used..];
      var others := Items(OidFromDer, rest);
      assert items == [OidFromDer(b).result] + others;
      EkuMeaning(rest, oid);
      PurposeInFront(items[0], others, oid);
    }
  }

  lemma PurposeInFront(first: Result<Bytes>, others: seq<Result<Bytes>>, oid: Bytes)
    ensures ListsPurpose([first] + others, oid) <==> first == Ok(oid) || (first.Ok? && ListsPurpose(others, oid))
  {
    var items := [first] + others;
    assert first == Ok(oid) ==> ListedAt(items, oid, 0);
    if k :| ListedAt(items, oid, k) {
      ListedBehind(first, others, oid, k);
    }
    if k :| ListedAt(others, oid, k) {
      ListedBehind(first, others, oid, k);
    }
  }

  lemma ListedBehind(first: Result<Bytes>, others: seq<Result<Bytes>>, oid: Bytes, k: int)
    ensures first.Ok? && ListedAt(others, oid, k) ==> ListedAt([first] + others, oid, k + 1)
    ensures ListedAt([first] + others, oid, k) && k > 0 ==> first.Ok? && ListedAt(others, oid, k - 1)
  {
    var items := [first] + others;
    assert forall i :: 0 <= i < |others| ==> items[i + 1] == others[i];
    if ListedAt(items, oid, k) && k > 0 {
      assert items[0].Ok?;
      forall i | 0 <= i < k - 1
        ensures others[i].Ok?
      {
        assert items[i + 1].Ok?;
      }
    }
  }

  // ----- everything that does not depend on the issuer

  function CheckIssuerIndependentProperties(
    own: Parsed, time: int, usedAsCa: bool, subCaCount: nat, eku: ExtendedKeyUsage): Outcome
  {
    var _ :- CheckValidity(own.validity, time);
    var _ :- CheckBasicConstraints(own.basicConstraints, usedAsCa, subCaCount);
    CheckEku(own.eku, eku)
  }

  // ----- key usage

  /** `bit_string_flags` indexes the last octet of the flags behind the padding without looking whether
      there is one; these are the only contents for which there is none (see `LastFlagOctet`). */
  predicate NoFlagOctet(contents: Bytes) {
    contents == [0]
  }

  /** The checks before the index pass: there is an octet for the padding, it is at most 7, and without
      flags there is no padding. */
  predicate ComesToLastOctet(contents: Bytes) {
    contents != [] && contents[0] <= 7 && !(contents[1..] == [] && contents[0] != 0)
  }

  lemma LastFlagOctet(contents: Bytes)
    requires ComesToLastOctet(contents)
    ensures 0 <= |contents[1..]| - 1 < |contents[1..]| <==> !NoFlagOctet(contents)
  {
    if contents[1..] == [] {
      assert contents == [contents[0]];
    }
  }

  /** What `bit_string_flags` gives. Where it aborts the function has to have some value; the method
      below, which indexes like the source, excludes that input. */
  function BitStringFlags(b: Bytes): Result<Bytes> {
    if b == [] then Err(BadDer) else
    var padding := b[0];
    var raw := b[1..];
    if padding > 7 || raw == [] then Err(BadDer)
    else if raw[|raw| - 1] % LowBits(padding) != 0 then Err(BadDer)
    else Ok(raw)
  }

  /** `1 << padding` */
  function LowBits(padding: nat): nat
    requires padding <= 7
  {
    [1, 2, 4, 8, 16, 32, 64, 128][padding]
  }

  const CRL_SIGN: nat := 6

  function BitSet(raw: Bytes, bit: nat): bool {
    bit / 8 < |raw| && raw[bit / 8] / LowBits(7 - bit % 8) % 2 != 0
  }

  /** `bit_string_flags` */
  method ReadBitStringFlags(input: Bytes) returns (res: Result<Bytes>)
    requires !NoFlagOctet(input)
    ensures res == BitStringFlags(input)
  {
    var bitString := new Reader(input);
    var paddingBits := bitString.ReadByte();
    if paddingBits == None {
      return Err(BadDer);
    }
    var rawBits := bitString.input[bitString.pos..];
    if paddingBits.value > 7 || (rawBits == [] && paddingBits.value != 0) {
      return Err(BadDer);
    }
    LastFlagOctet(input);
    var lastByte := rawBits[|rawBits| - 1];
    if paddingBits.value > 0 && lastByte % LowBits(paddingBits.value) != 0 {
      return Err(BadDer);
    }
    return Ok(rawBits);
  }

  /** Checking this key usage does not come to a missing flag octet. */
  predicate HasFlagOctets(keyUsage: Option<Bytes>) {
    keyUsage.Some? && ExpectTag(keyUsage.value, TAG_BIT_STRING).result.Ok?
    ==> !NoFlagOctet(ExpectTag(keyUsage.value, TAG_BIT_STRING).result.value)
  }

  /** The three octets of a BIT STRING without flags and without padding. */
  const FLAGLESS: Bytes := [TAG_BIT_STRING, 1, 0]

  lemma FlaglessExactly(b: Bytes)
    ensures !HasFlagOctets(Some(b)) <==> FLAGLESS <= b
  {
    if |b| >= 3 && b[1] == 1 {
      assert b[2..3] == [b[2]];
    }
    if !HasFlagOctets(Some(b)) {
      assert ExpectTag(b, TAG_BIT_STRING).result.value[0] == 0;
    }
  }

  /** `KeyUsageMode::CrlSign.check` */
  function CheckCrlSign(keyUsage: Option<Bytes>): Outcome {
    match keyUsage
    case None => DONE
    case Some(b) =>
      var bits :- ExpectTag(b, TAG_BIT_STRING).result;
      var raw :- BitStringFlags(bits);
      if BitSet(raw, CRL_SIGN) then DONE else Err(IssuerNotCrlSigner)
  }

  /** `KeyUsageMode::CrlSign.check` */
  method CheckKeyUsage(keyUsage: Option<Bytes>) returns (res: Outcome)
    requires HasFlagOctets(keyUsage)
    ensures res == CheckCrlSign(keyUsage)
  {
    hide ExpectTagLimited, BitStringFlags;
    if keyUsage.None? {
      return DONE;
    }
    var input := new Reader(keyUsage.value);
    assert input.Rest() == keyUsage.value;
    var bitString :- ReadExpectedTag(input, TAG_BIT_STRING);
    var flags :- ReadBitStringFlags(bitString);
    return if BitSet(flags, CRL_SIGN) then DONE else Err(IssuerNotCrlSigner);
  }
}
