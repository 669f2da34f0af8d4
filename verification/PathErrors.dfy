/** `Error::is_fatal`: of everything the search calls, only the signature counter reports the error
    that ends a loop early (src/error.rs, src/verify_cert.rs). */
module PathErrors {
  import opened Basics
  import opened Der
  import opened Certificates
  import opened CertificateMeaning
  import opened NameConstraints
  import opened Crl
  import opened PathSearch
  import DnsMatching
  import DnsNames
  import IpConstraints
  import RevokedCerts
  import Time

  predicate NotFatal<T>(r: Result<T>) {
    r != Err(MaximumSignatureChecksExceeded)
  }

  /** What reading an encoding may fail with. */
  predicate ReadError(e: Error) {
    || Malformed(e)
    || e in {InvalidSerialNumber, ExtensionValueInvalid, UnsupportedCriticalExtension, UnsupportedIndirectCrl, UnsupportedRevocationReason}
  }

  predicate OnlyReadErrors<T>(r: Result<T>) {
    r.Err? ==> ReadError(r.error)
  }

  ghost predicate AllReadErrors<T>(items: seq<Result<T>>) {
    forall i :: 0 <= i < |items| ==> OnlyReadErrors(items[i])
  }

  lemma {:induction false} ItemsErrors<T(!new)>(parse: Bytes -> Step<T>, b: Bytes)
    requires Progress(parse)
    requires forall b :: OnlyReadErrors(parse(b).result)
    ensures AllReadErrors(Items(parse, b))
    decreases |b|
  {
    if b != [] {
      ItemsErrors(parse, b[parse(b).used..]);
    }
  }

  // ----- reading

  lemma TagErrors(b: Bytes, tag: Byte)
    ensures OnlyReadErrors(ExpectTag(b, tag).result) && ExpectTag(b, tag).used <= |b|
    ensures OnlyReadErrors(TlvStep(b, TWO_BYTE_DER_SIZE).result)
  {
    hide LengthStep;
  }

  lemma ContentsErrors(year: nat, v: Bytes, i: nat)
    ensures OnlyReadErrors(Time.AfterYear(year, v, i).result)
  {
    hide Time.DaysInMonth, Time.DaysBeforeYearAd, Time.DaysBeforeMonthInYear;
  }

  lemma TimeErrors(b: Bytes)
    ensures OnlyReadErrors(Time.FromDer(b).result) && Time.FromDer(b).used <= |b|
  {
    hide Time.AfterYear, Time.TwoDigitsAt, ExpectTag;
    forall year, v, i
      ensures OnlyReadErrors(Time.AfterYear(year, v, i).result)
    {
      ContentsErrors(year, v, i);
    }
  }

  lemma BoolErrors(b: Bytes)
    ensures OnlyReadErrors(BoolFromDer(b).result) && BoolFromDer(b).used <= |b|
  {
    hide ExpectTag;
  }

  lemma BasicConstraintsNotFatal(value: Option<Bytes>, usedAsCa: bool, subCaCount: nat)
    ensures NotFatal(CheckBasicConstraints(value, usedAsCa, subCaCount))
  {
    hide BoolFromDer, ExpectTag;
    if value.Some? {
      var b := value.value;
      BoolErrors(b);
      TagErrors(b[BoolFromDer(b).used..], TAG_INTEGER);
    }
  }

  lemma {:induction false} EkuNotFatal(b: Bytes, oid: Bytes)
    ensures NotFatal(EkuLoop(b, oid))
    decreases |b|
  {
    TagErrors(b, TAG_OID);
    var s := ExpectTag(b, TAG_OID);
    if b != [] && s.used < |b| {
      EkuNotFatal(b[s.used..], oid);
    }
  }

  lemma PropertiesNotFatal(own: Parsed, time: int, usedAsCa: bool, subCaCount: nat, eku: ExtendedKeyUsage)
    ensures NotFatal(CheckIssuerIndependentProperties(own, time, usedAsCa, subCaCount, eku))
  {
    hide Time.FromDer, EkuLoop, CheckBasicConstraints;
    TimeErrors(own.validity);
    TimeErrors(own.validity[Time.FromDer(own.validity).used..]);
    BasicConstraintsNotFatal(own.basicConstraints, usedAsCa, subCaCount);
    if own.eku.Some? {
      EkuNotFatal(own.eku.value, eku.oid);
    }
  }

  // ----- names

  lemma GeneralNamesErrors(b: Bytes)
    ensures OnlyReadErrors(GeneralNameFromDer(b).result)
    ensures OnlyReadErrors(GeneralSubtree(b).result)
  {
    hide TlvStep;
    TagErrors(b, TAG_SEQUENCE);
    forall v: Bytes
      ensures OnlyReadErrors(TlvStep(v, TWO_BYTE_DER_SIZE).result)
    {
      TagErrors(v, 0);
    }
  }

  lemma {:induction false} CommonNameInnerErrors(b: Bytes)
    ensures OnlyReadErrors(NameConstraints.CommonNameInner(b).result)
    decreases |b|
  {
    hide TlvStep;
    if b != [] {
      TagErrors(b, TAG_OID);
      var behind := b[ExpectTag(b, TAG_OID).used..];
      TagErrors(behind, TAG_UTF8_STRING);
      CommonNameInnerErrors(behind[TlvStep(behind, TWO_BYTE_DER_SIZE).used..]);
    }
  }

  lemma CommonNameErrors(subject: Bytes)
    ensures OnlyReadErrors(CommonName(subject))
  {
    hide NameConstraints.CommonNameInner, ExpectTag;
    forall b
      ensures OnlyReadErrors(NameConstraints.CommonNameInner(b).result)
    {
      CommonNameInnerErrors(b);
    }
  }

  lemma {:induction false} WithRestErrors(items: seq<Result<GeneralName>>, rest: seq<Result<GeneralName>>)
    requires AllReadErrors(items) && AllReadErrors(rest)
    ensures AllReadErrors(WithRest(items, rest))
  {
    if items != [] {
      WithRestErrors(items[1..], rest);
    }
  }

  lemma NamesErrors(subject: Option<Bytes>, subjectAltName: Option<Bytes>, contents: SubjectCommonNameContents)
    ensures AllReadErrors(NamesOf(subject, subjectAltName, contents))
  {
    GeneralNameProgress();
    hide GeneralNameFromDer, CommonName, WithRest, Progress;
    var alt := if subjectAltName.Some? then Items(GeneralNameFromDer, subjectAltName.value) else [];
    forall b
      ensures OnlyReadErrors(GeneralNameFromDer(b).result)
    {
      GeneralNamesErrors(b);
    }
    if subjectAltName.Some? {
      ItemsErrors(GeneralNameFromDer, subjectAltName.value);
    }
    if subject.Some? {
      CommonNameErrors(subject.value);
    }
    WithRestErrors(alt, SubjectNames(subject, if contents.DnsNameContents? then subject else None));
  }

  lemma BasesErrors(constraints: Option<Bytes>)
    ensures AllReadErrors(Bases(constraints))
  {
    SubtreeProgress();
    hide GeneralSubtree, Progress;
    forall b
      ensures OnlyReadErrors(GeneralSubtree(b).result)
    {
      GeneralNamesErrors(b);
    }
    if constraints.Some? {
      ItemsErrors(GeneralSubtree, constraints.value);
    }
  }

  lemma {:induction false} CidrNotFatal(name: Bytes, address: Bytes, mask: Bytes, seenZeroBit: bool)
    requires |name| == |address| == |mask|
    ensures NotFatal(IpConstraints.CidrLoop(name, address, mask, seenZeroBit))
  {
    hide IpConstraints.DifferUnder, IpConstraints.LeadingOnes, IpConstraints.TrailingZeros;
    if name != [] {
      CidrNotFatal(name[1..], address[1..], mask[1..], seenZeroBit || mask[0] != 0xff);
    }
  }

  lemma CompareNotFatal(name: GeneralName, base: GeneralName, subtrees: Subtrees)
    ensures Compare(name, base, subtrees).Some? ==> NotFatal(Compare(name, base, subtrees).value)
  {
    hide DnsNames.ValidDnsId, DnsMatching.MatchesConstraint, IpConstraints.CidrLoop;
    if name.IpAddress? && base.IpAddress? && |base.ip| == 2 * |name.ip| {
      CidrNotFatal(name.ip, base.ip[..|name.ip|], base.ip[|name.ip|..], false);
    }
  }

  lemma {:induction false} ScanNotFatal(subtrees: Subtrees, name: GeneralName, bases: seq<Result<GeneralName>>,
                                        hasMatch: bool, hasMismatch: bool)
    requires AllReadErrors(bases)
    ensures Scan(subtrees, name, bases, hasMatch, hasMismatch) != Some(MaximumSignatureChecksExceeded)
  {
    if bases != [] && bases[0].Ok? {
      CompareNotFatal(name, bases[0].value, subtrees);
      hide Compare;
      ScanNotFatal(subtrees, name, bases[1..], hasMatch, hasMismatch);
      ScanNotFatal(subtrees, name, bases[1..], true, hasMismatch);
      ScanNotFatal(subtrees, name, bases[1..], hasMatch, true);
    }
  }

  lemma {:induction false} CheckNamesNotFatal(names: seq<Result<GeneralName>>, permitted: Option<Bytes>, excluded: Option<Bytes>)
    requires AllReadErrors(names)
    ensures NotFatal(CheckNames(names, permitted, excluded))
  {
    hide Scan, Bases;
    if names != [] && names[0].Ok? {
      BasesErrors(permitted);
      BasesErrors(excluded);
      ScanNotFatal(PermittedSubtrees, names[0].value, Bases(permitted), false, false);
      ScanNotFatal(ExcludedSubtrees, names[0].value, Bases(excluded), false, false);
      CheckNamesNotFatal(names[1..], permitted, excluded);
    }
  }

  lemma {:induction false} CheckChainNotFatal(cert: Cert, permitted: Option<Bytes>, excluded: Option<Bytes>,
                                              contents: SubjectCommonNameContents)
    ensures NotFatal(CheckChain(cert, permitted, excluded, contents))
    decreases cert
  {
    hide NamesOf, CheckNames;
    NamesErrors(Some(cert.own.subject), cert.own.subjectAltName, contents);
    CheckNamesNotFatal(NamesOf(Some(cert.own.subject), cert.own.subjectAltName, contents), permitted, excluded);
    if cert.eeOrCa.Ca? {
      CheckChainNotFatal(cert.eeOrCa.child, permitted, excluded, contents);
    }
  }

  lemma ConstraintsNotFatal(value: Option<Bytes>, cert: Cert, contents: SubjectCommonNameContents)
    ensures NotFatal(CheckNameConstraints(value, cert, contents))
  {
    hide CheckChain, ExpectTag;
    if value.Some? {
      var b := value.value;
      TagErrors(b, TAG_CONTEXT_CONSTRUCTED_0);
      var p := ParseSubtrees(b, TAG_CONTEXT_CONSTRUCTED_0);
      TagErrors(b[p.used..], TAG_CONTEXT_CONSTRUCTED_1);
      var e := ParseSubtrees(b[p.used..], TAG_CONTEXT_CONSTRUCTED_1);
      if p.result.Ok? && e.result.Ok? {
        CheckChainNotFatal(cert, p.result.value, e.result.value, contents);
      }
    }
  }

  // ----- revocation

  lemma ExtensionErrors(b: Bytes)
    ensures OnlyReadErrors(RevokedCerts.ExtensionFromDer(b).result)
  {
    hide ExpectTag, BoolFromDer, TlvStep, Nested;
    TagErrors(b, TAG_OID);
    var id := ExpectTag(b, TAG_OID);
    BoolErrors(b[id.used..]);
    var critical := BoolFromDer(b[id.used..]);
    TagErrors(b[id.used + critical.used..], TAG_OCTET_STRING);
  }

  lemma RememberErrors(cert: RevokedCerts.RevokedCert, ext: RevokedCerts.Extension)
    ensures OnlyReadErrors(RevokedCerts.Remember(cert, ext))
  {
    hide ExpectTag, Time.FromDer, RevokedCerts.ReasonOfCode;
    TagErrors(ext.value, RevokedCerts.TAG_ENUM);
    TimeErrors(ext.value);
    forall code
      ensures OnlyReadErrors(RevokedCerts.ReasonOfCode(code))
    {
      ReasonErrors(code);
    }
  }

  lemma ReasonErrors(code: Byte)
    ensures OnlyReadErrors(RevokedCerts.ReasonOfCode(code))
  {
  }

  lemma RememberNextErrors(cert: RevokedCerts.RevokedCert, b: Bytes)
    ensures OnlyReadErrors(RevokedCerts.RememberNext(cert, b).result)
  {
    hide RevokedCerts.Remember, RevokedCerts.ExtensionFromDer;
    ExtensionErrors(b);
    var ext := RevokedCerts.ExtensionFromDer(b).result;
    if ext.Ok? {
      RememberErrors(cert, ext.value);
    }
  }

  lemma {:induction false} RememberAllErrors(cert: RevokedCerts.RevokedCert, b: Bytes)
    ensures OnlyReadErrors(RevokedCerts.RememberAll(cert, b))
    decreases |b|
  {
    hide RevokedCerts.RememberNext, ExpectTag;
    if b != [] {
      forall v
        ensures OnlyReadErrors(RevokedCerts.RememberNext(cert, v).result)
      {
        RememberNextErrors(cert, v);
      }
      var s := Nested(b, TAG_SEQUENCE, TrailingData(DerTypeId.RevokedCertificateExtension), inner => RevokedCerts.RememberNext(cert, inner));
      if s.result.Ok? {
        RememberAllErrors(s.result.value, b[s.used..]);
      }
    }
  }

  lemma EntryContentsErrors(b: Bytes)
    ensures OnlyReadErrors(RevokedCerts.EntryContents(b).result)
  {
    hide ExpectTag, Time.FromDer, RevokedCerts.RememberAll, TlvStep, Nested;
    TagErrors(b, TAG_INTEGER);
    var serial := ExpectTag(b, TAG_INTEGER);
    TimeErrors(b[serial.used..]);
    var date := Time.FromDer(b[serial.used..]);
    var rest := b[serial.used + date.used..];
    TagErrors(rest, TAG_SEQUENCE);
    var extensions := ExpectTag(rest, TAG_SEQUENCE).result;
    if serial.result.Ok? && date.result.Ok? && extensions.Ok? {
      RememberAllErrors(RevokedCerts.RevokedCert(serial.result.value, date.result.value, None, None), extensions.value);
    }
  }

  lemma EntriesErrors(b: Bytes)
    ensures AllReadErrors(RevokedCerts.Entries(b))
  {
    RevokedCerts.EntryProgress();
    hide RevokedCerts.EntryContents, ExpectTag, Progress;
    forall v
      ensures OnlyReadErrors(RevokedCerts.EntryContents(v).result)
    {
      EntryContentsErrors(v);
    }
    ItemsErrors(RevokedCerts.RevokedCertFromDer, b);
  }

  lemma {:induction false} SerialScanErrors(entries: seq<Result<RevokedCerts.RevokedCert>>, serial: Bytes)
    requires AllReadErrors(entries)
    ensures OnlyReadErrors(RevokedCerts.Scan(entries, serial))
  {
    if entries != [] {
      SerialScanErrors(entries[1..], serial);
    }
  }

  lemma FindSerialErrors(crl: RevocationList, serial: Bytes)
    ensures OnlyReadErrors(crl.FindSerial(serial))
  {
    hide RevokedCerts.Entries, RevokedCerts.Scan;
    if crl.revoked.Borrowed? {
      EntriesErrors(crl.revoked.entries);
      SerialScanErrors(RevokedCerts.Entries(crl.revoked.entries), serial);
    }
  }

  lemma SignedNotFatal(o: ChainOptions, cert: Cert, spki: Bytes, keyUsage: Option<Bytes>)
    ensures NotFatal(CheckSigned(o, cert, spki, keyUsage))
  {
    hide ExpectTag, BitStringFlags, BitSet, RevocationList.FindSerial, FirstAuthoritative;
    if keyUsage.Some? {
      TagErrors(keyUsage.value, TAG_BIT_STRING);
      var bits := ExpectTag(keyUsage.value, TAG_BIT_STRING).result;
      if bits.Ok? {
        FlagsErrors(bits.value);
      }
    }
    if o.revocation.Some? {
      var found := FirstAuthoritative(o.revocation.value.crls, cert);
      if found.Some? {
        FindSerialErrors(found.value, cert.own.serial);
      }
    }
  }

  lemma FlagsErrors(b: Bytes)
    ensures OnlyReadErrors(BitStringFlags(b))
  {
  }
}
