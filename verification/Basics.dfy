/** Bytes, results and errors shared by every component of the validator. */
module Basics {

  /** A `u8`. */
  type Byte = b: int | 0 <= b < 256

  type Bytes = seq<Byte>

  // ----- ASCII

  predicate IsDigit(b: Byte) {
    '0' as int <= b <= '9' as int
  }

  function AsciiLower(b: Byte): Byte {
    if 'A' as int <= b <= 'Z' as int then b + 'a' as int - 'A' as int else b
  }

  // ----- results

  datatype Option<+T> = None | Some(value: T)

  /** `Result<T, Error>`: the only error type of the library is `Error`. */
  datatype Result<+T> = Ok(value: T) | Err(error: Error) {
    predicate IsFailure() {
      Err?
    }

    function PropagateFailure<U>(): Result<U>
      requires Err?
    {
      Err(error)
    }

    function Extract(): T
      requires Ok?
    {
      value
    }
  }

  /** `Result<(), Error>`. */
  type Outcome = Result<()>

  const DONE: Outcome := Ok(())

  datatype DerTypeId =
    | BitString
    | Bool
    | Certificate
    | CertificateExtensions
    | CertificateTbsCertificate
    | CertRevocationList
    | CertRevocationListExtension
    | CrlDistributionPoint
    | CommonNameInner
    | CommonNameOuter
    | DistributionPointName
    | Extension
    | GeneralName
    | RevocationReason
    | Signature
    | SignatureAlgorithm
    | SignedData
    | SubjectPublicKeyInfo
    | Time
    | TrustAnchorV1
    | TrustAnchorV1TbsCertificate
    | U8
    | RevokedCertificate
    | RevokedCertificateExtension
    | RevokedCertEntry
    | IssuingDistributionPoint

  datatype Error =
    | BadDer
    | BadDerTime
    | CaUsedAsEndEntity
    | CertExpired
    | CertNotValidForName
    | CertNotValidYet
    | CertRevoked
    | EndEntityUsedAsCa
    | ExtensionValueInvalid
    | InvalidCertValidity
    | InvalidCrlNumber
    | InvalidNetworkMaskConstraint
    | InvalidSerialNumber
    | InvalidCrlSignatureForPublicKey
    | InvalidSignatureForPublicKey
    | IssuerNotCrlSigner
    | MalformedDnsIdentifier
    | MalformedExtensions
    | MalformedNameConstraint
    | MaximumSignatureChecksExceeded
    | NameConstraintViolation
    | PathLenConstraintViolated
    | RequiredEkuNotFound
    | SignatureAlgorithmMismatch
    | TrailingData(typeId: DerTypeId)
    | UnknownIssuer
    | UnknownRevocationStatus
    | UnsupportedCertVersion
    | UnsupportedCriticalExtension
    | UnsupportedCrlIssuingDistributionPoint
    | UnsupportedCrlVersion
    | UnsupportedDeltaCrl
    | UnsupportedIndirectCrl
    | UnsupportedRevocationReason
    | UnsupportedRevocationReasonsPartitioning
    | UnsupportedCrlSignatureAlgorithm
    | UnsupportedSignatureAlgorithm
    | UnsupportedCrlSignatureAlgorithmForPublicKey
    | UnsupportedSignatureAlgorithmForPublicKey
  {
    /** How specific the error is; a higher rank is more useful to a user. */
    function Rank(): nat {
      match this
      case CertNotValidYet | CertExpired => 29
      case CertNotValidForName => 28
      case CertRevoked | UnknownRevocationStatus => 27
      case InvalidCrlSignatureForPublicKey | InvalidSignatureForPublicKey => 26
      case SignatureAlgorithmMismatch => 25
      case RequiredEkuNotFound => 24
      case NameConstraintViolation => 23
      case PathLenConstraintViolated => 22
      case CaUsedAsEndEntity | EndEntityUsedAsCa => 21
      case IssuerNotCrlSigner => 20
      case InvalidCertValidity => 19
      case InvalidNetworkMaskConstraint => 18
      case InvalidSerialNumber => 17
      case InvalidCrlNumber => 16
      case UnsupportedCrlSignatureAlgorithmForPublicKey
        | UnsupportedSignatureAlgorithmForPublicKey => 15
      case UnsupportedCrlSignatureAlgorithm | UnsupportedSignatureAlgorithm => 14
      case UnsupportedCriticalExtension => 13
      case UnsupportedCertVersion => 13
      case UnsupportedCrlVersion => 12
      case UnsupportedDeltaCrl => 11
      case UnsupportedIndirectCrl => 10
      case UnsupportedRevocationReason => 9
      case UnsupportedRevocationReasonsPartitioning => 8
      case UnsupportedCrlIssuingDistributionPoint => 7
      case MalformedDnsIdentifier => 6
      case MalformedNameConstraint => 5
      case MalformedExtensions | TrailingData(_) => 4
      case ExtensionValueInvalid => 3
      case BadDerTime => 2
      case BadDer => 1
      case MaximumSignatureChecksExceeded => 0
      case UnknownIssuer => 0
    }

    /** The earlier error wins a tie. */
    function MostSpecific(newer: Error): Error {
      if Rank() >= newer.Rank() then this else newer
    }
  }

  // ----- which error is reported

  /** Of two errors this one is reported, in whatever order they come. */
  predicate MoreSpecific(e: Error, other: Error) {
    e.MostSpecific(other) == e && other.MostSpecific(e) == e
  }

  /** Of two errors the earlier one is reported. */
  predicate EquallySpecific(e: Error, other: Error) {
    e.MostSpecific(other) == e && other.MostSpecific(e) == other
  }

  predicate IsCertificateError(e: Error) {
    e in {CertNotValidYet, CertExpired, CertNotValidForName, CertRevoked, UnknownRevocationStatus, InvalidCrlSignatureForPublicKey,
          InvalidSignatureForPublicKey, SignatureAlgorithmMismatch, RequiredEkuNotFound, NameConstraintViolation,
          PathLenConstraintViolated, CaUsedAsEndEntity, EndEntityUsedAsCa, IssuerNotCrlSigner, InvalidCertValidity}
  }

  predicate IsUnsupportedError(e: Error) {
    e in {UnsupportedCrlSignatureAlgorithmForPublicKey, UnsupportedSignatureAlgorithmForPublicKey, UnsupportedCrlSignatureAlgorithm,
          UnsupportedSignatureAlgorithm, UnsupportedCriticalExtension, UnsupportedCertVersion, UnsupportedCrlVersion,
          UnsupportedDeltaCrl, UnsupportedIndirectCrl, UnsupportedRevocationReason, UnsupportedRevocationReasonsPartitioning,
          UnsupportedCrlIssuingDistributionPoint}
  }

  predicate IsEncodingError(e: Error) {
    || e.TrailingData?
    || e in {MalformedDnsIdentifier, MalformedNameConstraint, MalformedExtensions, ExtensionValueInvalid, BadDerTime, BadDer}
  }

  lemma RankOfCertificateError(e: Error)
    ensures IsCertificateError(e) <==> e.Rank() >= 19
  {
  }

  lemma RankOfUnsupportedError(e: Error)
    ensures IsUnsupportedError(e) <==> 7 <= e.Rank() <= 15
  {
  }

  lemma RankOfEncodingError(e: Error)
    ensures IsEncodingError(e) <==> 1 <= e.Rank() <= 6
  {
  }

  lemma RankOfNoError(e: Error)
    ensures e == UnknownIssuer || e == MaximumSignatureChecksExceeded <==> e.Rank() == 0
  {
  }

  lemma ByRank(e: Error, other: Error)
    ensures e.Rank() > other.Rank() ==> MoreSpecific(e, other)
    ensures e.Rank() == other.Rank() ==> EquallySpecific(e, other)
  {
    hide Error.Rank;
  }

  /** What a certificate fails outranks what is not supported, that outranks encodings that cannot be read,
      and those outrank that no issuer was found and that the signature budget was spent. */
  lemma ClassesOfErrors(e: Error, other: Error)
    ensures IsCertificateError(e) && (IsUnsupportedError(other) || IsEncodingError(other)) ==> MoreSpecific(e, other)
    ensures IsUnsupportedError(e) && IsEncodingError(other) ==> MoreSpecific(e, other)
    ensures e != UnknownIssuer && e != MaximumSignatureChecksExceeded ==>
              MoreSpecific(e, UnknownIssuer) && MoreSpecific(e, MaximumSignatureChecksExceeded)
    ensures EquallySpecific(UnknownIssuer, MaximumSignatureChecksExceeded)
  {
    hide Error.Rank, Error.MostSpecific, IsCertificateError, IsUnsupportedError, IsEncodingError, MoreSpecific, EquallySpecific;
    ByRank(e, other);
    ByRank(e, UnknownIssuer);
    ByRank(e, MaximumSignatureChecksExceeded);
    ByRank(UnknownIssuer, MaximumSignatureChecksExceeded);
    RankOfCertificateError(e);
    RankOfUnsupportedError(e);
    RankOfUnsupportedError(other);
    RankOfEncodingError(other);
    RankOfNoError(e);
    RankOfNoError(UnknownIssuer);
    RankOfNoError(MaximumSignatureChecksExceeded);
  }

  /** What a certificate may fail, the most specific error first. */
  const CERTIFICATE_ERRORS: seq<Error> := [
    CertExpired, CertNotValidForName, CertRevoked, InvalidSignatureForPublicKey, SignatureAlgorithmMismatch,
    RequiredEkuNotFound, NameConstraintViolation, PathLenConstraintViolated, EndEntityUsedAsCa, IssuerNotCrlSigner,
    InvalidCertValidity]

  lemma RankOfPlace(i: nat)
    requires i < |CERTIFICATE_ERRORS|
    ensures CERTIFICATE_ERRORS[i].Rank() == 29 - i
  {
    var e := CERTIFICATE_ERRORS[i];
    assert i < 6 ==> e == [CertExpired, CertNotValidForName, CertRevoked, InvalidSignatureForPublicKey, SignatureAlgorithmMismatch, RequiredEkuNotFound][i];
  }

  lemma CertificateErrorsInOrder(i: nat, j: nat)
    requires i < j < |CERTIFICATE_ERRORS|
    ensures MoreSpecific(CERTIFICATE_ERRORS[i], CERTIFICATE_ERRORS[j])
  {
    hide Error.Rank;
    RankOfPlace(i);
    RankOfPlace(j);
    ByRank(CERTIFICATE_ERRORS[i], CERTIFICATE_ERRORS[j]);
  }

  /** Of the errors that are not in that list, these stand beside one that is. */
  lemma ErrorsOfOnePlace()
    ensures EquallySpecific(CertExpired, CertNotValidYet) && EquallySpecific(CertRevoked, UnknownRevocationStatus)
    ensures EquallySpecific(InvalidSignatureForPublicKey, InvalidCrlSignatureForPublicKey)
    ensures EquallySpecific(EndEntityUsedAsCa, CaUsedAsEndEntity)
  {
    hide Error.MostSpecific, MoreSpecific, EquallySpecific;
    ByRank(CertExpired, CertNotValidYet);
    ByRank(CertRevoked, UnknownRevocationStatus);
    ByRank(InvalidSignatureForPublicKey, InvalidCrlSignatureForPublicKey);
    ByRank(EndEntityUsedAsCa, CaUsedAsEndEntity);
  }

  lemma SliceOfSlice<T>(s: seq<T>, i: nat, j: nat, a: nat, b: nat)
    requires i <= j <= |s| && a <= b <= j - i
    ensures s[i..j][a..b] == s[i + a..i + b]
  {
    var t := s[i..j];
    assert forall k :: 0 <= k < |t| ==> t[k] == s[i + k];
    assert t[a..b] == s[i + a..i + b];
  }
}
