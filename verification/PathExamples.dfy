/** Concrete inputs of the families that `PathSpent` and `PathAborts` describe. */
module PathExamples {
  import opened Basics
  import opened Der
  import opened DerMeaning
  import opened Certificates
  import opened CertificateMeaning
  import opened Crl
  import opened PathSearch
  import opened PathSpent
  import opened PathAborts
  import Calendar
  import Time

  /** Names and keys of the examples. */
  const ROOT: Bytes := [1]
  const MIDDLE: Bytes := [2]
  const LEAF: Bytes := [3]

  /** The contents of basic constraints of a CA without a path length. */
  const CA_CONSTRAINTS: Bytes := [TAG_BOOLEAN, 1, 0xff]

  const PURPOSE: ExtendedKeyUsage := RequiredIfPresent(EKU_SERVER_AUTH)
  const NO_DATA := SignedData.SignedData([], [], [])
  const NOW: nat := 1_000_000_000

  lemma FirstAndLastDates()
    ensures Calendar.Valid(Calendar.FIRST) && Calendar.Valid(Calendar.LAST)
  {
    hide Calendar.Seconds;
    Calendar.FirstSecond();
    Calendar.LastSecond();
  }

  /** From the beginning of 1970 to the end of 9999. */
  function Always(): Bytes {
    FirstAndLastDates();
    Encode(TAG_GENERALIZED_TIME, Calendar.GeneralizedText(Calendar.FIRST))
    + Encode(TAG_GENERALIZED_TIME, Calendar.GeneralizedText(Calendar.LAST))
  }

  function Certificate(subject: Bytes, issuer: Bytes, basicConstraints: Option<Bytes>, keyUsage: Option<Bytes>,
                       points: Option<seq<Result<CrlDistributionPoint>>>): Parsed
  {
    Parsed([7], NO_DATA, issuer, Always(), subject, subject, basicConstraints, keyUsage, None, None, None, points)
  }

  lemma TextDenotesTime(d: Time.DateTime)
    requires Calendar.Valid(d)
    ensures |Calendar.GeneralizedText(d)| == 15
    ensures DenotesTime(Encode(TAG_GENERALIZED_TIME, Calendar.GeneralizedText(d)), Calendar.Seconds(d))
  {
    hide Calendar.Seconds, Encode, Calendar.Valid;
    var v := Calendar.GeneralizedText(d);
    assert Calendar.TextDenotes(d, TAG_GENERALIZED_TIME, v);
    assert Calendar.IsTextOf(TAG_GENERALIZED_TIME, v, Calendar.Seconds(d));
  }

  lemma AlwaysIsNow()
    ensures ValidAt(Always(), NOW)
  {
    hide Calendar.Seconds, Calendar.Valid, Encode, DenotesTime, Calendar.GeneralizedText;
    Calendar.FirstSecond();
    Calendar.LastSecond();
    TextDenotesTime(Calendar.FIRST);
    TextDenotesTime(Calendar.LAST);
    assert Always()[..|Always()|] == Always();
    assert IsPeriod(Always(), |Always()|, Calendar.Seconds(Calendar.FIRST), Calendar.Seconds(Calendar.LAST));
  }

  lemma ConstraintsOfCa()
    ensures MayBeUsed(Some(CA_CONSTRAINTS), true, 0)
  {
    assert CA_CONSTRAINTS == CA_CONSTRAINTS + [];
    assert IsTagged(CA_CONSTRAINTS, 0x01, [0xff]);
    assert IsBasicConstraints(CA_CONSTRAINTS, true, None);
  }

  lemma LeafPasses(issuer: Bytes, points: Option<seq<Result<CrlDistributionPoint>>>)
    ensures CheckIssuerIndependentProperties(Certificate(LEAF, issuer, None, None, points), NOW, false, 0, PURPOSE).Ok?
  {
    hide CheckIssuerIndependentProperties, ValidAt, Always;
    AlwaysIsNow();
    PassesExactly(Certificate(LEAF, issuer, None, None, points), NOW, false, 0, PURPOSE);
  }

  lemma MiddlePasses(keyUsage: Option<Bytes>)
    ensures CheckIssuerIndependentProperties(Certificate(MIDDLE, ROOT, Some(CA_CONSTRAINTS), keyUsage, None), NOW, true, 0, PURPOSE).Ok?
  {
    hide CheckIssuerIndependentProperties, ValidAt, Always, MayBeUsed;
    AlwaysIsNow();
    ConstraintsOfCa();
    PassesExactly(Certificate(MIDDLE, ROOT, Some(CA_CONSTRAINTS), keyUsage, None), NOW, true, 0, PURPOSE);
  }

  const ANCHOR: TrustAnchor := TrustAnchor.TrustAnchor(ROOT, ROOT, None)

  // ----- a spent budget that is not reported

  function Refuse(key: Bytes, data: SignedData): Checked {
    Err(InvalidSignatureForPublicKey)
  }

  function Agree(key: Bytes, data: SignedData): Checked {
    DONE
  }

  function ManyAnchors(): ChainOptions {
    ChainOptions(PURPOSE, Refuse, seq(MAX_SIGNATURES + 1, i => ANCHOR), [Err(BadDer)], None, NOW)
  }

  /** The same anchor 101 times, one unreadable intermediate, and no signature that verifies. */
  lemma BudgetErrorLost()
    ensures
      var r := Search(ManyAnchors(), Cert(Certificate(LEAF, ROOT, None, None, None), EndEntity), 0, Tally(0, 0, 0, 0));
      r.0 == Err(BadDer) && r.1.signatures == MAX_SIGNATURES + 1
  {
    hide Search, CheckIssuerIndependentProperties, Always;
    LeafPasses(ROOT, None);
    BudgetErrorIsReplaced(ManyAnchors(), Certificate(LEAF, ROOT, None, None, None));
  }

  // ----- runs that abort

  function ChainOfThree(keyUsage: Bytes): ChainOptions {
    var middle := Certificate(MIDDLE, ROOT, Some(CA_CONSTRAINTS), Some(keyUsage), None);
    var crl := RevocationList.RevocationList(MIDDLE, None, NO_DATA, Owned(map[]));
    ChainOptions(PURPOSE, Agree, [ANCHOR], [Ok(middle)], Some(RevocationOptions([crl], EndEntityOnly, Deny)), NOW)
  }

  /** The intermediate has the key usage 03 01 00; with the cRLSign bit, 03 02 01 02, the run does not abort. */
  lemma KeyUsageWithoutFlags()
    ensures SearchAborts(ChainOfThree(FLAGLESS), Cert(Certificate(LEAF, MIDDLE, None, None, None), EndEntity), 0, Tally(0, 0, 0, 0))
    ensures !SearchAborts(ChainOfThree([TAG_BIT_STRING, 2, 1, 2]), Cert(Certificate(LEAF, MIDDLE, None, None, None), EndEntity), 0, Tally(0, 0, 0, 0))
  {
    hide SearchAborts, CheckIssuerIndependentProperties, Always;
    ChainOfThreeAborts(FLAGLESS);
    ChainOfThreeAborts([TAG_BIT_STRING, 2, 1, 2]);
    assert FLAGLESS[1] == 1;
  }

  lemma ChainOfThreeAborts(keyUsage: Bytes)
    ensures SearchAborts(ChainOfThree(keyUsage), Cert(Certificate(LEAF, MIDDLE, None, None, None), EndEntity), 0, Tally(0, 0, 0, 0))
       <==> FLAGLESS <= keyUsage
  {
    hide SearchAborts, CheckIssuerIndependentProperties, Always;
    var o := ChainOfThree(keyUsage);
    LeafPasses(MIDDLE, None);
    MiddlePasses(Some(keyUsage));
    AbortsOnFlaglessIssuer(o, Certificate(LEAF, MIDDLE, None, None, None), o.intermediates[0].value, ANCHOR, o.revocation.value.crls[0]);
  }

  function Reasons(reasons: Bytes): Option<seq<Result<CrlDistributionPoint>>> {
    Some([Ok(CrlDistributionPoint.CrlDistributionPoint(Some([]), Some(reasons), None))])
  }

  function ChainOfTwo(): ChainOptions {
    var idp := IssuingDistributionPoint.IssuingDistributionPoint(Some(Encode(FULL_NAME_TAG, [])), false, false);
    var crl := RevocationList.RevocationList(ROOT, Some(Ok(idp)), NO_DATA, Owned(map[]));
    ChainOptions(PURPOSE, Agree, [ANCHOR], [], Some(RevocationOptions([crl], RevocationCheckDepth.Chain, Deny)), NOW)
  }

  /** No certificate has a key usage, and the reasons of the one distribution point have no flags. */
  lemma ReasonsWithoutFlags()
    ensures SearchAborts(ChainOfTwo(), Cert(Certificate(LEAF, ROOT, None, None, Reasons([0])), EndEntity), 0, Tally(0, 0, 0, 0))
  {
    hide SearchAborts, CheckIssuerIndependentProperties, Always, Encode, FullNameOf;
    var o := ChainOfTwo();
    var crl := o.revocation.value.crls[0];
    LeafPasses(ROOT, Reasons([0]));
    FullNameIsRead([]);
    AbortsOnFlaglessReasons(o, Certificate(LEAF, ROOT, None, None, Reasons([0])), ANCHOR, crl, crl.idp.value.value, [], [0]);
  }
}
