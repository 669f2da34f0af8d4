/** When a CRL speaks for a certificate (src/crl.rs, src/x509.rs). */
module Crl {
  import opened Basics
  import opened Der
  import opened DerMeaning
  import opened Certificates
  import opened NameConstraints
  import DerCanonical
  import RevokedCerts

  /** The issuing distribution point of a CRL, as it is accepted when the CRL is loaded. */
  datatype IssuingDistributionPoint = IssuingDistributionPoint(
    distributionPoint: Option<Bytes>,
    onlyContainsUserCerts: bool,
    onlyContainsCaCerts: bool)

  /** The entries of a CRL: their encoding, or the index built from it. */
  datatype Revoked =
    | Borrowed(entries: Bytes)
    | Owned(index: map<Bytes, RevokedCerts.RevokedCert>)

  datatype RevocationList = RevocationList(
    issuer: Bytes,
    idp: Option<Result<IssuingDistributionPoint>>,
    signedData: SignedData,
    revoked: Revoked)
  {
    function FindSerial(serial: Bytes): Result<Option<RevokedCerts.RevokedCert>> {
      match revoked
      case Borrowed(entries) => RevokedCerts.Scan(RevokedCerts.Entries(entries), serial)
      case Owned(index) => Ok(RevokedCerts.FindInIndex(index, serial))
    }
  }

  // ----- names of a distribution point

  const FULL_NAME_TAG: Byte := 0xA0
  const NAME_RELATIVE_TO_CRL_ISSUER_TAG: Byte := 0xA1

  datatype DistributionPointName =
    | FullName(generalNames: Bytes)
    | NameRelativeToCrlIssuer(name: Bytes)

  /** `DistributionPointName::from_der` */
  function NameFromDer(b: Bytes): Result<DistributionPointName> {
    var tlv :- TlvStep(b, TWO_BYTE_DER_SIZE).result;
    if tlv.tag == FULL_NAME_TAG then Ok(FullName(tlv.value))
    else if tlv.tag == NAME_RELATIVE_TO_CRL_ISSUER_TAG then Ok(NameRelativeToCrlIssuer(tlv.value))
    else Err(BadDer)
  }

  /** `names()`, when it is a well-formed full name. */
  function FullNameOf(distributionPoint: Option<Bytes>): Option<Bytes> {
    if distributionPoint.None? then None
    else
      match NameFromDer(distributionPoint.value)
      case Ok(FullName(names)) => Some(names)
      case _ => None
  }

  /** A distribution point has full names exactly when they stand in front of it under [0]; under [1], the
      name relative to the CRL issuer, there are none. */
  lemma FullNameExactly(b: Bytes, names: Bytes)
    ensures FullNameOf(Some(b)) == Some(names) <==> exists used: nat :: used <= |b| && IsTagged(b[..used], 0xA0, names)
  {
    hide TlvStep, IsTagged;
    var s := TlvStep(b, TWO_BYTE_DER_SIZE);
    if s.result.Ok? {
      TlvExactly(b, s.result.value.tag, s.result.value.value, s.used);
    }
    forall used: nat | used <= |b| && IsTagged(b[..used], 0xA0, names)
      ensures s == Step(Ok(Tlv(0xA0, names)), used)
    {
      TlvExactly(b, 0xA0, names, used);
    }
  }

  function GeneralNames(b: Bytes): seq<Result<GeneralName>> {
    GeneralNameProgress();
    Items(GeneralNameFromDer, b)
  }

  // ----- URIs in common

  predicate IsUri(item: Result<GeneralName>) {
    item.Ok? && item.value.UniformResourceIdentifier?
  }

  /** The first URI among the names; items that cannot be read are passed over. */
  function FirstUri(items: seq<Result<GeneralName>>): Option<Bytes> {
    if items == [] then None
    else if IsUri(items[0]) then Some(items[0].value.uri)
    else FirstUri(items[1..])
  }

  predicate HasUri(items: seq<Result<GeneralName>>, uri: Bytes) {
    Ok(UniformResourceIdentifier(uri)) in items
  }

  /** `uri_name_in_common`. Looking for the first URI of the CRL uses up the names of the certificate's
      distribution point, so no later URI of the CRL can be found any more; and without a hit the
      names of the CRL are used up, too. */
  method UriNameInCommon(idpNames: DerIterator<GeneralName>, dpNames: DerIterator<GeneralName>) returns (common: bool)
    requires idpNames.Valid() && dpNames.Valid() && idpNames.reader != dpNames.reader
    modifies idpNames.reader, dpNames.reader
    ensures idpNames.Valid() && dpNames.Valid()
    ensures
      var uri := FirstUri(old(idpNames.Remaining()));
      common == (uri.Some? && HasUri(old(dpNames.Remaining()), uri.value))
    ensures !common ==> idpNames.Remaining() == []
  {
    ghost var names, others := idpNames.Remaining(), dpNames.Remaining();
    ghost var uriSeen := false;
    while true
      invariant idpNames.Valid() && dpNames.Valid()
      invariant !uriSeen ==> FirstUri(names) == FirstUri(idpNames.Remaining()) && dpNames.Remaining() == others
      invariant uriSeen ==> dpNames.Remaining() == [] && FirstUri(names).Some? && !HasUri(others, FirstUri(names).value)
      decreases |idpNames.reader.input| - idpNames.reader.pos
    {
      ghost var before := idpNames.Remaining();
      var name := idpNames.Next();
      if name.None? {
        return false;
      }
      assert before[0] == name.value && before[1..] == idpNames.Remaining();
      if !IsUri(name.value) {
        continue;
      }
      var uri := name.value.value.uri;
      ghost var left := dpNames.Remaining();
      label Loop:
      while true
        invariant idpNames.Valid() && dpNames.Valid()
        invariant idpNames.Remaining() == before[1..] && idpNames.reader.pos == old@Loop(idpNames.reader.pos)
        invariant HasUri(left, uri) == HasUri(dpNames.Remaining(), uri)
        decreases |dpNames.reader.input| - dpNames.reader.pos
      {
        var other := dpNames.Next();
        if other.None? {
          break;
        }
        if IsUri(other.value) && other.value.value.uri == uri {
          return true;
        }
      }
      uriSeen := true;
    }
    return false;
  }

  // ----- authority

  /** The CRL is not restricted to the other kind of certificate. */
  predicate ScopeIncludes(idp: IssuingDistributionPoint, cert: Cert) {
    !(idp.onlyContainsCaCerts && cert.eeOrCa.EndEntity?) && !(idp.onlyContainsUserCerts && cert.eeOrCa.Ca?)
  }

  /** A distribution point with readable full names, for all reasons and not for an indirect CRL. */
  predicate Usable(dp: Result<CrlDistributionPoint>) {
    dp.Ok? && dp.value.crlIssuer.None? && dp.value.reasons.None? && FullNameOf(dp.value.distributionPoint).Some?
  }

  function NamesOfPoint(dp: Result<CrlDistributionPoint>): seq<Result<GeneralName>>
    requires Usable(dp)
  {
    GeneralNames(FullNameOf(dp.value.distributionPoint).value)
  }

  /** The first distribution point of the certificate has the first URI of the CRL. */
  predicate FirstPointHasFirstUri(idpNames: seq<Result<GeneralName>>, dps: seq<Result<CrlDistributionPoint>>) {
    && dps != [] && Usable(dps[0])
    && FirstUri(idpNames).Some? && HasUri(NamesOfPoint(dps[0]), FirstUri(idpNames).value)
  }

  /** What `authoritative_for` decides. */
  predicate AuthoritativeFor(idp: IssuingDistributionPoint, cert: Cert) {
    && ScopeIncludes(idp, cert)
    && (cert.own.crlDistributionPoints.Some? ==>
          && FullNameOf(idp.distributionPoint).Some?
          && FirstPointHasFirstUri(GeneralNames(FullNameOf(idp.distributionPoint).value), cert.own.crlDistributionPoints.value))
  }

  /** Parsing this distribution point comes to reasons without a flag octet, on which the source aborts. */
  predicate PointAborts(dp: Result<CrlDistributionPoint>) {
    dp.Ok? && dp.value.reasons.Some? && NoFlagOctet(dp.value.reasons.value)
  }

  /** The points are parsed one after the other, up to one that ends the search. */
  predicate ComesToPoint(idpNames: seq<Result<GeneralName>>, dps: seq<Result<CrlDistributionPoint>>, i: nat)
    requires i < |dps|
  {
    (forall j :: 0 <= j < i ==> Usable(dps[j])) && (i > 0 ==> !FirstPointHasFirstUri(idpNames, dps))
  }

  /** `authoritative_for` comes to such a point. */
  predicate AuthorityAborts(idp: IssuingDistributionPoint, cert: Cert) {
    && ScopeIncludes(idp, cert)
    && cert.own.crlDistributionPoints.Some?
    && FullNameOf(idp.distributionPoint).Some?
    && var dps := cert.own.crlDistributionPoints.value;
       exists i :: 0 <= i < |dps| && PointAborts(dps[i])
                && ComesToPoint(GeneralNames(FullNameOf(idp.distributionPoint).value), dps, i)
  }

  /** One turn of the loop over the distribution points of a certificate: `None` when the point
      ends the search, else whether it shares a URI with what is left of the CRL's names. */
  method TryPoint(idpNames: DerIterator<GeneralName>, dp: Result<CrlDistributionPoint>) returns (common: Option<bool>)
    requires idpNames.Valid() && !PointAborts(dp)
    modifies idpNames.reader
    ensures idpNames.Valid()
    ensures common.None? <==> !Usable(dp)
    ensures
      var uri := FirstUri(old(idpNames.Remaining()));
      common.Some? ==> common.value == (uri.Some? && HasUri(NamesOfPoint(dp), uri.value))
    ensures common == Some(false) ==> idpNames.Remaining() == []
  {
    if dp.Err? {
      return None;
    }
    if dp.value.reasons.Some? {
      var flags := ReadBitStringFlags(dp.value.reasons.value);
      if flags.Err? {
        return None;
      }
    }
    if dp.value.crlIssuer.Some? || dp.value.reasons.Some? {
      return None;
    }
    var fullName := FullNameOf(dp.value.distributionPoint);
    if fullName.None? {
      return None;
    }
    GeneralNameProgress();
    hide GeneralNameFromDer, FullNameOf, Progress, FirstUri;
    var dpNames := new DerIterator(fullName.value, GeneralNameFromDer);
    var found := UriNameInCommon(idpNames, dpNames);
    return Some(found);
  }

  /** One cursor over the names of the CRL serves all distribution points of the certificate. */
  method TryPoints(idpNames: DerIterator<GeneralName>, dps: seq<Result<CrlDistributionPoint>>) returns (found: bool)
    requires idpNames.Valid()
    requires forall i :: 0 <= i < |dps| && PointAborts(dps[i]) ==> !ComesToPoint(idpNames.Remaining(), dps, i)
    modifies idpNames.reader
    ensures found == FirstPointHasFirstUri(old(idpNames.Remaining()), dps)
  {
    hide Usable, HasUri, NamesOfPoint, PointAborts, GeneralNameFromDer, Progress;
    ghost var names := idpNames.Remaining();
    for i := 0 to |dps|
      invariant idpNames.Valid()
      invariant i == 0 ==> idpNames.Remaining() == names
      invariant i > 0 ==> idpNames.Remaining() == [] && !FirstPointHasFirstUri(names, dps)
      invariant forall j :: 0 <= j < i ==> Usable(dps[j])
    {
      assert ComesToPoint(names, dps, i);
      var common := TryPoint(idpNames, dps[i]);
      if common.None? {
        return false;
      }
      if common.value {
        return true;
      }
    }
    return false;
  }

  /** `IssuingDistributionPoint::authoritative_for` */
  method IsAuthoritativeFor(idp: IssuingDistributionPoint, cert: Cert) returns (res: bool)
    requires !AuthorityAborts(idp, cert)
    ensures res == AuthoritativeFor(idp, cert)
  {
    hide GeneralNameFromDer, FullNameOf, Progress, PointAborts, ComesToPoint, FirstPointHasFirstUri;
    if (idp.onlyContainsCaCerts && cert.eeOrCa.EndEntity?) || (idp.onlyContainsUserCerts && cert.eeOrCa.Ca?) {
      return false;
    }
    if cert.own.crlDistributionPoints.None? {
      return true;
    }
    var idpFullName := FullNameOf(idp.distributionPoint);
    if idpFullName.None? {
      return false;
    }
    GeneralNameProgress();
    var idpNames := new DerIterator(idpFullName.value, GeneralNameFromDer);
    res := TryPoints(idpNames, cert.own.crlDistributionPoints.value);
  }

  // ----- what the documentation promises

  /** The URI is one of the full names of a distribution point. */
  ghost predicate NamesUri(distributionPoint: Option<Bytes>, uri: Bytes) {
    distributionPoint.Some? && exists used: nat, names :: NamesUriAt(distributionPoint.value, used, names, uri)
  }

  predicate NamesUriAt(b: Bytes, used: nat, names: Bytes, uri: Bytes) {
    used <= |b| && IsTagged(b[..used], 0xA0, names) && Ok(UniformResourceIdentifier(uri)) in GeneralNames(names)
  }

  /** A distribution point of the certificate, for all reasons and not for an indirect CRL, has this URI. */
  ghost predicate PointNamesUri(dp: Result<CrlDistributionPoint>, uri: Bytes) {
    dp.Ok? && dp.value.reasons.None? && dp.value.crlIssuer.None? && NamesUri(dp.value.distributionPoint, uri)
  }

  /** Some distribution point of the certificate and that of the CRL have some URI in common. */
  ghost predicate SharesUri(distributionPoint: Option<Bytes>, dps: seq<Result<CrlDistributionPoint>>) {
    exists dp, uri :: dp in dps && PointNamesUri(dp, uri) && NamesUri(distributionPoint, uri)
  }

  /** The CRL is not restricted to the other kind of certificate. */
  predicate Covers(idp: IssuingDistributionPoint, cert: Cert) {
    if cert.UsedAsCa() then !idp.onlyContainsUserCerts else !idp.onlyContainsCaCerts
  }

  lemma NamesUriExactly(distributionPoint: Option<Bytes>, uri: Bytes)
    ensures NamesUri(distributionPoint, uri) <==>
            FullNameOf(distributionPoint).Some? && HasUri(GeneralNames(FullNameOf(distributionPoint).value), uri)
  {
    hide GeneralNames, FullNameOf, IsTagged;
    if distributionPoint.Some? {
      var b := distributionPoint.value;
      forall names
        ensures FullNameOf(Some(b)) == Some(names) <==> exists used: nat :: used <= |b| && IsTagged(b[..used], 0xA0, names)
      {
        FullNameExactly(b, names);
      }
      if FullNameOf(Some(b)).Some? && HasUri(GeneralNames(FullNameOf(Some(b)).value), uri) {
        var names := FullNameOf(Some(b)).value;
        var used: nat :| used <= |b| && IsTagged(b[..used], 0xA0, names);
        assert NamesUriAt(b, used, names, uri);
      }
      if used: nat, names :| NamesUriAt(b, used, names, uri) {
        assert used <= |b| && IsTagged(b[..used], 0xA0, names);
        assert distributionPoint == Some(b) && FullNameOf(Some(b)) == Some(names);
        assert HasUri(GeneralNames(names), uri);
      }
    } else {
      NoFullName();
    }
  }

  lemma NoFullName()
    ensures FullNameOf(None) == None
  {
  }

  lemma PointNamesUriExactly(dp: Result<CrlDistributionPoint>, uri: Bytes)
    ensures PointNamesUri(dp, uri) <==> Usable(dp) && HasUri(NamesOfPoint(dp), uri)
  {
    hide GeneralNames, FullNameOf, NamesUri;
    if dp.Ok? {
      NamesUriExactly(dp.value.distributionPoint, uri);
    }
  }

  lemma {:induction false} FirstUriIsOne(items: seq<Result<GeneralName>>)
    ensures FirstUri(items).Some? ==> HasUri(items, FirstUri(items).value)
    ensures FirstUri(items).None? ==> forall uri :: !HasUri(items, uri)
  {
    if items != [] && !IsUri(items[0]) {
      FirstUriIsOne(items[1..]);
      assert forall item :: item in items <==> item == items[0] || item in items[1..];
      forall uri
        ensures HasUri(items, uri) ==> HasUri(items[1..], uri)
      {
      }
    }
  }

  /** An authoritative CRL really shares a URI with the certificate. The converse fails; it holds
      when the CRL names one URI only and the certificate has one distribution point. */
  lemma AuthoritySharesUri(idp: IssuingDistributionPoint, cert: Cert)
    requires cert.own.crlDistributionPoints.Some?
    ensures
      var dps := cert.own.crlDistributionPoints.value;
      && (AuthoritativeFor(idp, cert) ==> Covers(idp, cert) && SharesUri(idp.distributionPoint, dps))
      && (Covers(idp, cert) && SharesUri(idp.distributionPoint, dps) && OneUri(idp.distributionPoint) && |dps| == 1
          ==> AuthoritativeFor(idp, cert))
  {
    hide GeneralNames, FullNameOf, NamesUri, PointNamesUri, Usable, NamesOfPoint;
    var dps := cert.own.crlDistributionPoints.value;
    forall uri
      ensures NamesUri(idp.distributionPoint, uri) <==>
              FullNameOf(idp.distributionPoint).Some? && HasUri(GeneralNames(FullNameOf(idp.distributionPoint).value), uri)
    {
      NamesUriExactly(idp.distributionPoint, uri);
    }
    forall dp, uri
      ensures PointNamesUri(dp, uri) <==> Usable(dp) && HasUri(NamesOfPoint(dp), uri)
    {
      PointNamesUriExactly(dp, uri);
    }
    if FullNameOf(idp.distributionPoint).Some? {
      FirstUriIsOne(GeneralNames(FullNameOf(idp.distributionPoint).value));
    }
    if AuthoritativeFor(idp, cert) {
      var uri := FirstUri(GeneralNames(FullNameOf(idp.distributionPoint).value)).value;
      assert dps[0] in dps && PointNamesUri(dps[0], uri) && NamesUri(idp.distributionPoint, uri);
    }
  }

  ghost predicate OneUri(distributionPoint: Option<Bytes>) {
    forall a, b :: NamesUri(distributionPoint, a) && NamesUri(distributionPoint, b) ==> a == b
  }

  function UriName(uri: Bytes): Bytes
    requires |uri| < 100
  {
    Encode(UNIFORM_RESOURCE_IDENTIFIER_TAG, uri)
  }

  lemma ShortEncoding(tag: Byte, value: Bytes)
    requires |value| < 128
    ensures Encode(tag, value) == [tag, |value|] + value
  {
  }

  lemma UriIsRead(uri: Bytes, rest: Bytes)
    requires |uri| < 100
    ensures GeneralNames(UriName(uri) + rest) == [Ok(UniformResourceIdentifier(uri))] + GeneralNames(rest)
  {
    GeneralNameProgress();
    DerCanonical.ReadEncoded(UNIFORM_RESOURCE_IDENTIFIER_TAG, uri, rest, TWO_BYTE_DER_SIZE);
    var b := UriName(uri) + rest;
    assert b[|UriName(uri)|..] == rest;
    assert GeneralNameFromDer(b) == Step(Ok(UniformResourceIdentifier(uri)), |UriName(uri)|);
  }

  lemma FullNameIsRead(names: Bytes)
    requires |names| < 1000
    ensures FullNameOf(Some(Encode(FULL_NAME_TAG, names))) == Some(names)
  {
    hide FullNameOf, Encode;
    var e := Encode(FULL_NAME_TAG, names);
    assert e[..|e|] == e;
    FullNameExactly(e, names);
  }

  /** The converse fails in general: here the second URI of the CRL is the only one of the
      certificate, which the documentation takes for authority, but it is never looked at. */
  lemma SharedUriIsNotEnough(u: Bytes, v: Bytes, cert: Cert)
    requires u != v && |u| < 100 && |v| < 100
    requires cert.own.crlDistributionPoints
          == Some([Ok(CrlDistributionPoint.CrlDistributionPoint(Some(Encode(FULL_NAME_TAG, UriName(v))), None, None))])
    ensures
      var idp := IssuingDistributionPoint.IssuingDistributionPoint(Some(Encode(FULL_NAME_TAG, UriName(u) + UriName(v))), false, false);
      && Covers(idp, cert) && SharesUri(idp.distributionPoint, cert.own.crlDistributionPoints.value)
      && !AuthoritativeFor(idp, cert)
  {
    ShortEncoding(UNIFORM_RESOURCE_IDENTIFIER_TAG, u);
    ShortEncoding(UNIFORM_RESOURCE_IDENTIFIER_TAG, v);
    FullNameIsRead(UriName(u) + UriName(v));
    FullNameIsRead(UriName(v));
    UriIsRead(u, UriName(v));
    UriIsRead(v, []);
    assert UriName(v) + [] == UriName(v);
    hide GeneralNames, FullNameOf, Encode, UriName, NamesUri, PointNamesUri;
    var names := GeneralNames(UriName(u) + UriName(v));
    var dps := cert.own.crlDistributionPoints.value;
    NoNames();
    assert names == [Ok(UniformResourceIdentifier(u)), Ok(UniformResourceIdentifier(v))];
    assert NamesOfPoint(dps[0]) == [Ok(UniformResourceIdentifier(v))];
    assert Usable(dps[0]) && HasUri(NamesOfPoint(dps[0]), v) && HasUri(names, v);
    PointNamesUriExactly(dps[0], v);
    NamesUriExactly(Some(Encode(FULL_NAME_TAG, UriName(u) + UriName(v))), v);
    assert dps[0] in dps;
  }

  lemma NoNames()
    ensures GeneralNames([]) == []
  {
  }

  /** `crl_authoritative` */
  predicate CrlAuthoritative(crl: RevocationList, cert: Cert) {
    && crl.issuer == cert.own.issuer
    && (match crl.idp
        case None => cert.own.crlDistributionPoints.None?
        case Some(Err(_)) => false
        case Some(Ok(idp)) => AuthoritativeFor(idp, cert))
  }

  /** What the documentation promises: the CRL has the issuer of the certificate and covers its kind,
      and if the certificate names distribution points, the two have a URI in common. */
  ghost predicate SpeaksFor(crl: RevocationList, cert: Cert) {
    && crl.issuer == cert.own.issuer
    && (crl.idp.Some? ==> crl.idp.value.Ok? && Covers(crl.idp.value.value, cert))
    && (cert.own.crlDistributionPoints.Some? ==>
          crl.idp.Some? && SharesUri(crl.idp.value.value.distributionPoint, cert.own.crlDistributionPoints.value))
  }

  /** The documented rule is authority except that the URI in common has to be the first one of the CRL
      and stand in the first distribution point of the certificate. */
  lemma AuthorityExactly(crl: RevocationList, cert: Cert)
    ensures CrlAuthoritative(crl, cert) <==>
            && SpeaksFor(crl, cert)
            && (cert.own.crlDistributionPoints.Some? ==>
                  FirstPointHasFirstUri(NamesOfCrl(crl), cert.own.crlDistributionPoints.value))
  {
    hide GeneralNames, FullNameOf, FirstPointHasFirstUri, SharesUri;
    if crl.idp.Some? && crl.idp.value.Ok? && cert.own.crlDistributionPoints.Some? {
      AuthoritySharesUri(crl.idp.value.value, cert);
      SharesNeedsNames(crl.idp.value.value.distributionPoint, cert.own.crlDistributionPoints.value);
    }
  }

  /** The full names of the CRL's distribution point, if it has any. */
  function NamesOfCrl(crl: RevocationList): seq<Result<GeneralName>> {
    if crl.idp.Some? && crl.idp.value.Ok? && FullNameOf(crl.idp.value.value.distributionPoint).Some?
    then GeneralNames(FullNameOf(crl.idp.value.value.distributionPoint).value) else []
  }

  lemma SharesNeedsNames(distributionPoint: Option<Bytes>, dps: seq<Result<CrlDistributionPoint>>)
    ensures SharesUri(distributionPoint, dps) ==> FullNameOf(distributionPoint).Some?
  {
    hide GeneralNames, FullNameOf, NamesUri, PointNamesUri;
    if dp, uri :| dp in dps && PointNamesUri(dp, uri) && NamesUri(distributionPoint, uri) {
      NamesUriExactly(distributionPoint, uri);
    }
  }

  /** `crl_authoritative` comes to such a point. */
  predicate CrlAborts(crl: RevocationList, cert: Cert) {
    && crl.issuer == cert.own.issuer
    && crl.idp.Some? && crl.idp.value.Ok?
    && AuthorityAborts(crl.idp.value.value, cert)
  }

  method IsCrlAuthoritative(crl: RevocationList, cert: Cert) returns (res: bool)
    requires !CrlAborts(crl, cert)
    ensures res == CrlAuthoritative(crl, cert)
  {
    if crl.issuer != cert.own.issuer {
      return false;
    }
    match crl.idp
    case None => return cert.own.crlDistributionPoints.None?;
    case Some(Err(_)) => return false;
    case Some(Ok(idp)) => res := IsAuthoritativeFor(idp, cert);
  }

  method FindSerial(crl: RevocationList, serial: Bytes) returns (res: Result<Option<RevokedCerts.RevokedCert>>)
    ensures res == crl.FindSerial(serial)
  {
    match crl.revoked
    case Borrowed(entries) => res := RevokedCerts.FindSerialByScan(entries, serial);
    case Owned(index) => return Ok(RevokedCerts.FindInIndex(index, serial));
  }
}
