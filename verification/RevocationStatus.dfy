/** What it means that the revocation check of one certificate passes (src/verify_cert.rs:307-398). */
module RevocationStatus {
  import opened Basics
  import opened Der
  import opened DerMeaning
  import opened EntryMeaning
  import opened Certificates
  import opened NameConstraints
  import opened Crl
  import opened PathSearch
  import opened PathErrors
  import RevokedCerts

  /** Every entry can be read, and none has this serial. */
  ghost predicate NotListed(crl: RevocationList, serial: Bytes) {
    match crl.revoked
    case Owned(index) => serial !in index
    case Borrowed(b) => ListsOtherSerials(b, serial)
  }

  /** An entry has this serial, and those before it can be read. */
  ghost predicate Listed(crl: RevocationList, serial: Bytes) {
    match crl.revoked
    case Owned(index) => serial in index
    case Borrowed(b) => ListsSerial(b, serial)
  }

  /** Flags in a BIT STRING: at most seven unused bits, and those are zero. */
  predicate WellPadded(bits: Bytes) {
    |bits| >= 2 && bits[0] <= 7 && bits[|bits| - 1] % LowBits(bits[0]) == 0
  }

  /** The key usage begins with a BIT STRING of flags. */
  ghost predicate BeginsWithFlags(keyUsage: Bytes, bits: Bytes) {
    WellPadded(bits) && exists used: nat :: used <= |keyUsage| && IsTagged(keyUsage[..used], 0x03, bits)
  }

  /** A key usage, if there is one, has the bit for signing CRLs: the second lowest of its first octet. */
  ghost predicate MaySignCrls(keyUsage: Option<Bytes>) {
    keyUsage.Some? ==> exists bits: Bytes :: BeginsWithFlags(keyUsage.value, bits) && bits[1] / 2 % 2 == 1
  }

  /** There is a key usage, and it has not. */
  ghost predicate MayNotSignCrls(keyUsage: Option<Bytes>) {
    keyUsage.Some? && exists bits: Bytes :: BeginsWithFlags(keyUsage.value, bits) && bits[1] / 2 % 2 == 0
  }

  /** The CRL is signed by the issuer's key, the issuer may sign CRLs, and the serial is not listed. */
  ghost predicate ShowsUnrevoked(o: ChainOptions, crl: RevocationList, serial: Bytes, signerKey: Bytes, signerKeyUsage: Option<Bytes>) {
    && o.verify(signerKey, crl.signedData).Ok?
    && MaySignCrls(signerKeyUsage)
    && NotListed(crl, serial)
  }

  /** This CRL shows that the certificate is not revoked. */
  ghost predicate Clears(o: ChainOptions, crl: RevocationList, cert: Cert, signerKey: Bytes, signerKeyUsage: Option<Bytes>) {
    SpeaksFor(crl, cert) && ShowsUnrevoked(o, crl, cert.own.serial, signerKey, signerKeyUsage)
  }

  /** The CRL at `i` is the first authoritative one. */
  predicate FirstAt(crls: seq<RevocationList>, cert: Cert, i: int) {
    && 0 <= i < |crls| && CrlAuthoritative(crls[i], cert)
    && forall j :: 0 <= j < i ==> !CrlAuthoritative(crls[j], cert)
  }

  /** No status is needed, or the first authoritative CRL shows it, or there is none and that is allowed. */
  ghost predicate StatusKnown(o: ChainOptions, rev: RevocationOptions, cert: Cert, signerKey: Bytes, signerKeyUsage: Option<Bytes>) {
    || (rev.depth.EndEntityOnly? && cert.UsedAsCa())
    || (exists i :: FirstAt(rev.crls, cert, i) && ShowsUnrevoked(o, rev.crls[i], cert.own.serial, signerKey, signerKeyUsage))
    || (rev.statusRequirement.Allow? && forall crl :: crl in rev.crls ==> !CrlAuthoritative(crl, cert))
  }

  /** What looking for a serial gives. */
  lemma NotListedExactly(crl: RevocationList, serial: Bytes)
    ensures
      var found := crl.FindSerial(serial);
      && (found == Ok(None) <==> NotListed(crl, serial))
      && (found.Ok? && found.value.Some? <==> Listed(crl, serial))
  {
    hide RevokedCerts.Entries, RevokedCerts.Scan, ListsSerial, ListsOtherSerials;
    if crl.revoked.Borrowed? {
      ScanExactly(crl.revoked.entries, serial);
    }
  }

  /** When a key usage admits signing CRLs, when it excludes it, and otherwise it is malformed. */
  lemma CrlSignExactly(keyUsage: Option<Bytes>)
    ensures CheckCrlSign(keyUsage).Ok? <==> MaySignCrls(keyUsage)
    ensures CheckCrlSign(keyUsage)
         == if MaySignCrls(keyUsage) then DONE else if MayNotSignCrls(keyUsage) then Err(IssuerNotCrlSigner) else Err(BadDer)
  {
    hide ExpectTag, IsTagged, WellPadded;
    if keyUsage.Some? {
      var b := keyUsage.value;
      var s := ExpectTag(b, TAG_BIT_STRING);
      TagError(b, TAG_BIT_STRING);
      forall bits: Bytes
        ensures BeginsWithFlags(b, bits) <==> s.result == Ok(bits) && WellPadded(bits)
      {
        FlagsAreRead(b, bits);
      }
      hide BeginsWithFlags;
      if s.result.Ok? {
        var bits := s.result.value;
        PaddingExactly(bits);
        assert WellPadded(bits) ==> BeginsWithFlags(b, bits);
      }
    }
  }

  lemma FlagsAreRead(b: Bytes, bits: Bytes)
    ensures BeginsWithFlags(b, bits) <==> ExpectTag(b, TAG_BIT_STRING).result == Ok(bits) && WellPadded(bits)
  {
    hide ExpectTag, IsTagged, WellPadded;
    TagExactly(b, TAG_BIT_STRING, bits, ExpectTag(b, TAG_BIT_STRING).used);
    forall used: nat
      ensures ExpectTag(b, TAG_BIT_STRING) == Step(Ok(bits), used) <==> used <= |b| && IsTagged(b[..used], 0x03, bits)
    {
      TagExactly(b, TAG_BIT_STRING, bits, used);
    }
  }

  lemma PaddingExactly(bits: Bytes)
    ensures BitStringFlags(bits) == if WellPadded(bits) then Ok(bits[1..]) else Err(BadDer)
    ensures WellPadded(bits) ==> (BitSet(bits[1..], CRL_SIGN) <==> bits[1] / 2 % 2 == 1)
  {
    assert |bits| >= 2 ==> bits[1..][0] == bits[1] && bits[1..][|bits| - 2] == bits[|bits| - 1];
  }

  lemma {:induction false} FirstExactly(crls: seq<RevocationList>, cert: Cert)
    ensures FirstAuthoritative(crls, cert).None? <==> forall crl :: crl in crls ==> !CrlAuthoritative(crl, cert)
    ensures forall i :: FirstAt(crls, cert, i) ==> FirstAuthoritative(crls, cert) == Some(crls[i])
    ensures FirstAuthoritative(crls, cert).Some? ==> exists i :: FirstAt(crls, cert, i)
  {
    hide CrlAuthoritative;
    if crls != [] {
      var rest := crls[1..];
      FirstExactly(rest, cert);
      assert forall crl :: crl in crls <==> crl == crls[0] || crl in rest;
      if CrlAuthoritative(crls[0], cert) {
        assert FirstAt(crls, cert, 0);
      } else {
        forall i
          ensures FirstAt(rest, cert, i) ==> FirstAt(crls, cert, i + 1)
          ensures FirstAt(crls, cert, i) ==> FirstAt(rest, cert, i - 1) && crls[i] == rest[i - 1]
        {
          FirstBehind(crls, cert, i);
        }
      }
    }
  }

  lemma FirstBehind(crls: seq<RevocationList>, cert: Cert, i: int)
    requires crls != [] && !CrlAuthoritative(crls[0], cert)
    ensures FirstAt(crls[1..], cert, i) ==> FirstAt(crls, cert, i + 1)
    ensures FirstAt(crls, cert, i) ==> FirstAt(crls[1..], cert, i - 1) && crls[i] == crls[1..][i - 1]
  {
    hide CrlAuthoritative;
    assert forall j :: 0 < j < |crls| ==> crls[j] == crls[1..][j - 1];
  }

  /** The check passes exactly when the status is known to be good enough. */
  lemma StatusExactly(o: ChainOptions, rev: RevocationOptions, cert: Cert, signerKey: Bytes, signerKeyUsage: Option<Bytes>)
    ensures CheckCrls(o, rev, cert, signerKey, signerKeyUsage).Ok? <==> StatusKnown(o, rev, cert, signerKey, signerKeyUsage)
  {
    hide FirstAuthoritative, FirstAt, CheckCrlSign, CrlAuthoritative, MaySignCrls, MayNotSignCrls, NotListed, Listed, RevocationList.FindSerial;
    FirstExactly(rev.crls, cert);
    CrlSignExactly(signerKeyUsage);
    var first := FirstAuthoritative(rev.crls, cert);
    if first.Some? {
      NotListedExactly(first.value, cert.own.serial);
      SerialFound(first.value, cert.own.serial);
    }
  }

  /** A signature error on a CRL is reported as one on a CRL. */
  lemma CrlSignatureErrors(e: Error)
    ensures CrlSignatureErr(InvalidSignatureForPublicKey) == InvalidCrlSignatureForPublicKey
    ensures CrlSignatureErr(UnsupportedSignatureAlgorithm) == UnsupportedCrlSignatureAlgorithm
    ensures CrlSignatureErr(UnsupportedSignatureAlgorithmForPublicKey) == UnsupportedCrlSignatureAlgorithmForPublicKey
    ensures e != InvalidSignatureForPublicKey && e != UnsupportedSignatureAlgorithm && e != UnsupportedSignatureAlgorithmForPublicKey
            ==> CrlSignatureErr(e) == e
  {
  }

  /** What is wrong first with the CRL that is used: its signature, the key usage, or the serial. */
  ghost predicate CrlFailsWith(o: ChainOptions, crl: RevocationList, serial: Bytes, signerKey: Bytes, signerKeyUsage: Option<Bytes>, e: Error) {
    var signature := o.verify(signerKey, crl.signedData);
    if signature.Err? then e == CrlSignatureErr(signature.error)
    else if !MaySignCrls(signerKeyUsage) then e == if MayNotSignCrls(signerKeyUsage) then IssuerNotCrlSigner else BadDer
    else if Listed(crl, serial) then e == CertRevoked
    else !NotListed(crl, serial) && ReadError(e) && crl.FindSerial(serial) == Err(e)
  }

  /** Why the status is not good enough: no authoritative CRL, or the first one says so. */
  ghost predicate StatusFailsWith(o: ChainOptions, rev: RevocationOptions, cert: Cert, signerKey: Bytes, signerKeyUsage: Option<Bytes>, e: Error) {
    && !(rev.depth.EndEntityOnly? && cert.UsedAsCa())
    && (|| (rev.statusRequirement.Deny? && (forall crl :: crl in rev.crls ==> !CrlAuthoritative(crl, cert)) && e == UnknownRevocationStatus)
        || (exists i :: FirstAt(rev.crls, cert, i) && CrlFailsWith(o, rev.crls[i], cert.own.serial, signerKey, signerKeyUsage, e)))
  }

  lemma CrlFailsExactly(o: ChainOptions, crl: RevocationList, serial: Bytes, signerKey: Bytes, signerKeyUsage: Option<Bytes>, e: Error)
    ensures UseCrl(crl, o.verify, serial, signerKey, signerKeyUsage) == Err(e) <==> CrlFailsWith(o, crl, serial, signerKey, signerKeyUsage, e)
  {
    hide CheckCrlSign, MaySignCrls, MayNotSignCrls, NotListed, Listed, RevocationList.FindSerial, CrlSignatureErr, ReadError;
    CrlSignExactly(signerKeyUsage);
    NotListedExactly(crl, serial);
    SerialFound(crl, serial);
    FindSerialErrors(crl, serial);
  }

  lemma StatusErrors(o: ChainOptions, rev: RevocationOptions, cert: Cert, signerKey: Bytes, signerKeyUsage: Option<Bytes>, e: Error)
    ensures CheckCrls(o, rev, cert, signerKey, signerKeyUsage) == Err(e) <==> StatusFailsWith(o, rev, cert, signerKey, signerKeyUsage, e)
  {
    hide FirstAuthoritative, FirstAt, CrlAuthoritative, UseCrl, CrlFailsWith;
    FirstExactly(rev.crls, cert);
    var first := FirstAuthoritative(rev.crls, cert);
    if first.Some? {
      CrlFailsExactly(o, first.value, cert.own.serial, signerKey, signerKeyUsage, e);
    }
  }

  lemma SerialFound(crl: RevocationList, serial: Bytes)
    ensures crl.FindSerial(serial).Ok? && crl.FindSerial(serial).value.None? <==> crl.FindSerial(serial) == Ok(None)
  {
    hide RevocationList.FindSerial;
  }

  /** When no status may be left unknown, some supplied CRL clears the certificate. */
  lemma KnownMeansCleared(o: ChainOptions, rev: RevocationOptions, cert: Cert, signerKey: Bytes, signerKeyUsage: Option<Bytes>)
    returns (crl: RevocationList)
    requires rev.depth.Chain? && rev.statusRequirement.Deny?
    requires StatusKnown(o, rev, cert, signerKey, signerKeyUsage)
    ensures crl in rev.crls && Clears(o, crl, cert, signerKey, signerKeyUsage)
  {
    hide CrlAuthoritative, SpeaksFor, ShowsUnrevoked;
    var i :| FirstAt(rev.crls, cert, i) && ShowsUnrevoked(o, rev.crls[i], cert.own.serial, signerKey, signerKeyUsage);
    crl := rev.crls[i];
    AuthorityExactly(crl, cert);
  }
}
