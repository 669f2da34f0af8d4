/** The depth-first search from an end entity to a trust anchor (src/verify_cert.rs). */
module PathSearch {
  import opened Basics
  import opened Certificates
  import opened NameConstraints
  import opened Crl

  // ----- inputs

  /** Only the search itself reports `MaximumSignatureChecksExceeded`. */
  type Checked = r: Outcome | r != Err(MaximumSignatureChecksExceeded) witness DONE

  /** An intermediate certificate as far as parsing got. */
  type PoolEntry = r: Result<Parsed> | r != Err(MaximumSignatureChecksExceeded) witness Err(BadDer)

  datatype TrustAnchor = TrustAnchor(subject: Bytes, spki: Bytes, nameConstraints: Option<Bytes>)

  datatype RevocationCheckDepth = EndEntityOnly | Chain

  datatype UnknownStatusPolicy = Allow | Deny

  datatype RevocationOptions = RevocationOptions(
    crls: seq<RevocationList>,
    depth: RevocationCheckDepth,
    statusRequirement: UnknownStatusPolicy)

  /** `verify` stands for `verify_signed_data` with the supported algorithms: the key comes first. */
  datatype ChainOptions = ChainOptions(
    eku: ExtendedKeyUsage,
    verify: (Bytes, SignedData) -> Checked,
    trustAnchors: seq<TrustAnchor>,
    intermediates: seq<PoolEntry>,
    revocation: Option<RevocationOptions>,
    time: int)

  const MAX_SUB_CA_COUNT: nat := 6
  const MAX_SIGNATURES: nat := 100

  /** The counter that all branches share, and beside it what the budget is meant to bound: the
      signature verifications on certificates and on CRLs, and the calls of the search. */
  datatype Tally = Tally(signatures: nat, certVerifies: nat, crlVerifies: nat, calls: nat)

  class Counter {
    var tally: Tally

    constructor ()
      ensures tally == Tally(0, 0, 0, 0)
    {
      tally := Tally(0, 0, 0, 0);
    }
  }

  // ----- revocation

  function CrlSignatureErr(e: Error): Error {
    match e
    case UnsupportedSignatureAlgorithm => UnsupportedCrlSignatureAlgorithm
    case UnsupportedSignatureAlgorithmForPublicKey => UnsupportedCrlSignatureAlgorithmForPublicKey
    case InvalidSignatureForPublicKey => InvalidCrlSignatureForPublicKey
    case _ => e
  }

  function FirstAuthoritative(crls: seq<RevocationList>, cert: Cert): Option<RevocationList> {
    if crls == [] then None
    else if CrlAuthoritative(crls[0], cert) then Some(crls[0])
    else FirstAuthoritative(crls[1..], cert)
  }

  /** The CRL whose signature `check_crls` verifies, if it comes to that. */
  function CrlToCheck(rev: RevocationOptions, cert: Cert): Option<RevocationList> {
    if rev.depth.EndEntityOnly? && cert.eeOrCa.Ca? then None
    else FirstAuthoritative(rev.crls, cert)
  }

  function UseCrl(crl: RevocationList, verify: (Bytes, SignedData) -> Checked, serial: Bytes,
                  issuerSpki: Bytes, issuerKeyUsage: Option<Bytes>): Outcome
  {
    var signature := verify(issuerSpki, crl.signedData);
    if signature.Err? then Err(CrlSignatureErr(signature.error)) else
    var _ :- CheckCrlSign(issuerKeyUsage);
    var found :- crl.FindSerial(serial);
    if found.Some? then Err(CertRevoked) else DONE
  }

  /** `check_crls` */
  function CheckCrls(o: ChainOptions, rev: RevocationOptions, cert: Cert, issuerSpki: Bytes, issuerKeyUsage: Option<Bytes>): Outcome
  {
    if rev.depth.EndEntityOnly? && cert.eeOrCa.Ca? then DONE
    else
      match FirstAuthoritative(rev.crls, cert)
      case Some(crl) => UseCrl(crl, o.verify, cert.own.serial, issuerSpki, issuerKeyUsage)
      case None => if rev.statusRequirement.Allow? then DONE else Err(UnknownRevocationStatus)
  }

  // ----- signatures

  function CountVerify(t: Tally): Tally {
    t.(signatures := t.signatures + 1, certVerifies := t.certVerifies + 1)
  }

  function CountCrl(o: ChainOptions, cert: Cert, t: Tally): Tally {
    if o.revocation.Some? && CrlToCheck(o.revocation.value, cert).Some?
    then t.(crlVerifies := t.crlVerifies + 1) else t
  }

  /** Signature and revocation status of one certificate. */
  function CheckSigned(o: ChainOptions, cert: Cert, spki: Bytes, keyUsage: Option<Bytes>): Outcome {
    var _ :- o.verify(spki, cert.own.signedData);
    if o.revocation.Some? then CheckCrls(o, o.revocation.value, cert, spki, keyUsage) else DONE
  }

  /** `check_signatures`, from the top of the chain down. */
  function CheckSignatures(o: ChainOptions, cert: Cert, spki: Bytes, keyUsage: Option<Bytes>, t: Tally): (Outcome, Tally) {
    if t.signatures >= MAX_SIGNATURES then
      (Err(MaximumSignatureChecksExceeded), t.(signatures := t.signatures + 1))
    else if o.verify(spki, cert.own.signedData).Err? then
      (o.verify(spki, cert.own.signedData), CountVerify(t))
    else
      var checked := CheckSigned(o, cert, spki, keyUsage);
      var t' := CountCrl(o, cert, CountVerify(t));
      if checked.Err? then (checked, t')
      else
        match cert.eeOrCa
        case EndEntity => (DONE, t')
        case Ca(child) => CheckSignatures(o, child, cert.own.spki, cert.own.keyUsage, t')
  }

  // ----- the search

  function Contents(o: ChainOptions, cert: Cert): SubjectCommonNameContents {
    if o.eku.oid == EKU_SERVER_AUTH && cert.eeOrCa.EndEntity? then DnsNameContents else Ignore
  }

  function AnchorStep(o: ChainOptions, cert: Cert, anchor: TrustAnchor, t: Tally): (Outcome, Tally) {
    if cert.own.issuer != anchor.subject then (Err(UnknownIssuer), t)
    else
      var names := CheckNameConstraints(anchor.nameConstraints, cert, Contents(o, cert));
      if names.Err? then (names, t)
      else CheckSignatures(o, cert, anchor.spki, None, t)
  }

  /** `loop_while_non_fatal_error` over the anchors. */
  function TryAnchors(o: ChainOptions, cert: Cert, anchors: seq<TrustAnchor>, err: Error, t: Tally): (Outcome, Tally) {
    if anchors == [] then (Err(err), t)
    else
      var r := AnchorStep(o, cert, anchors[0], t);
      if r.0.Ok? || r.0.error == MaximumSignatureChecksExceeded then r
      else TryAnchors(o, cert, anchors[1..], err.MostSpecific(r.0.error), r.1)
  }

  predicate SameKeyAndSubject(a: Parsed, b: Parsed) {
    a.spki == b.spki && a.subject == b.subject
  }

  /** The potential issuer repeats key and subject of a certificate on the path. */
  predicate LoopsBack(issuer: Parsed, cert: Cert) {
    SameKeyAndSubject(issuer, cert.own) || (cert.eeOrCa.Ca? && LoopsBack(issuer, cert.eeOrCa.child))
  }

  /** What is checked of a pool entry before the search goes on from it. */
  function ClimbStep(o: ChainOptions, cert: Cert, entry: PoolEntry): Result<Parsed> {
    var issuer :- entry;
    if issuer.subject != cert.own.issuer then Err(UnknownIssuer)
    else if LoopsBack(issuer, cert) then Err(UnknownIssuer)
    else
      var _ :- CheckNameConstraints(issuer.nameConstraints, cert, Contents(o, cert));
      Ok(issuer)
  }

  function NextSubCaCount(cert: Cert, subCaCount: nat): nat {
    if cert.UsedAsCa() then subCaCount + 1 else subCaCount
  }

  /** How many levels the depth limit still allows above a certificate. */
  function Height(cert: Cert, subCaCount: nat): nat {
    if !cert.UsedAsCa() then 8 else if subCaCount <= MAX_SUB_CA_COUNT then 7 - subCaCount else 0
  }

  predicate TooDeep(cert: Cert, subCaCount: nat) {
    cert.UsedAsCa() && subCaCount >= MAX_SUB_CA_COUNT
  }

  /** `build_chain_inner` */
  function Search(o: ChainOptions, cert: Cert, subCaCount: nat, t: Tally): (Outcome, Tally)
    requires !cert.UsedAsCa() ==> subCaCount == 0
    decreases Height(cert, subCaCount), 1, 0
  {
    var t0 := t.(calls := t.calls + 1);
    var own := CheckIssuerIndependentProperties(cert.own, o.time, cert.UsedAsCa(), subCaCount, o.eku);
    if own.Err? then (own, t0)
    else if TooDeep(cert, subCaCount) then (Err(UnknownIssuer), t0)
    else
      var a := TryAnchors(o, cert, o.trustAnchors, UnknownIssuer, t0);
      if a.0.Ok? then a
      else TryPool(o, cert, subCaCount, o.intermediates, a.0.error, a.1)
  }

  function EntryStep(o: ChainOptions, cert: Cert, subCaCount: nat, entry: PoolEntry, t: Tally): (Outcome, Tally)
    requires (!cert.UsedAsCa() ==> subCaCount == 0) && !TooDeep(cert, subCaCount)
    decreases Height(cert, subCaCount), 0, 0
  {
    var step := ClimbStep(o, cert, entry);
    if step.Err? then (Err(step.error), t)
    else Search(o, Cert(step.value, Ca(cert)), NextSubCaCount(cert, subCaCount), t)
  }

  /** `loop_while_non_fatal_error` over the intermediates. */
  function TryPool(o: ChainOptions, cert: Cert, subCaCount: nat, pool: seq<PoolEntry>, err: Error, t: Tally): (Outcome, Tally)
    requires (!cert.UsedAsCa() ==> subCaCount == 0) && !TooDeep(cert, subCaCount)
    decreases Height(cert, subCaCount), 0, |pool|
  {
    if pool == [] then (Err(err), t)
    else
      var r := EntryStep(o, cert, subCaCount, pool[0], t);
      if r.0.Ok? || r.0.error == MaximumSignatureChecksExceeded then r
      else TryPool(o, cert, subCaCount, pool[1..], err.MostSpecific(r.0.error), r.1)
  }

  // ----- the code

  /** Each certificate is issued by the subject above it. */
  predicate Linked(cert: Cert) {
    cert.eeOrCa.Ca? ==> cert.eeOrCa.child.own.issuer == cert.own.subject && Linked(cert.eeOrCa.child)
  }

  // Where the run comes to flags without an octet, on which the source aborts: the key usage of an
  // issuer, or the reasons of a distribution point.

  /** The check of this certificate comes to the key usage of its issuer: there is a CRL to use, and
      its signature verifies. */
  predicate ReadsKeyUsage(o: ChainOptions, rev: RevocationOptions, cert: Cert, spki: Bytes) {
    CrlToCheck(rev, cert).Some? && o.verify(spki, CrlToCheck(rev, cert).value.signedData).Ok?
  }

  /** Looking for an authoritative CRL comes to such a distribution point. */
  predicate CrlsAbort(crls: seq<RevocationList>, cert: Cert) {
    exists i :: 0 <= i < |crls| && CrlAborts(crls[i], cert) && forall j :: 0 <= j < i ==> !CrlAuthoritative(crls[j], cert)
  }

  predicate CheckCrlsAborts(o: ChainOptions, rev: RevocationOptions, cert: Cert, spki: Bytes, keyUsage: Option<Bytes>) {
    && !(rev.depth.EndEntityOnly? && cert.eeOrCa.Ca?)
    && (CrlsAbort(rev.crls, cert) || (ReadsKeyUsage(o, rev, cert, spki) && !HasFlagOctets(keyUsage)))
  }

  predicate StatusAborts(o: ChainOptions, cert: Cert, spki: Bytes, keyUsage: Option<Bytes>) {
    o.revocation.Some? && CheckCrlsAborts(o, o.revocation.value, cert, spki, keyUsage)
  }

  predicate SignaturesAbort(o: ChainOptions, cert: Cert, spki: Bytes, keyUsage: Option<Bytes>, t: Tally)
    decreases cert
  {
    && t.signatures < MAX_SIGNATURES
    && o.verify(spki, cert.own.signedData).Ok?
    && (|| StatusAborts(o, cert, spki, keyUsage)
        || (CheckSigned(o, cert, spki, keyUsage).Ok? && cert.eeOrCa.Ca?
            && SignaturesAbort(o, cert.eeOrCa.child, cert.own.spki, cert.own.keyUsage, CountCrl(o, cert, CountVerify(t)))))
  }

  predicate AnchorAborts(o: ChainOptions, cert: Cert, anchor: TrustAnchor, t: Tally) {
    && cert.own.issuer == anchor.subject
    && CheckNameConstraints(anchor.nameConstraints, cert, Contents(o, cert)).Ok?
    && SignaturesAbort(o, cert, anchor.spki, None, t)
  }

  predicate GoesOn(r: Outcome) {
    r.Err? && r.error != MaximumSignatureChecksExceeded
  }

  predicate AnchorsAbort(o: ChainOptions, cert: Cert, anchors: seq<TrustAnchor>, t: Tally) {
    && anchors != []
    && (|| AnchorAborts(o, cert, anchors[0], t)
        || (var r := AnchorStep(o, cert, anchors[0], t);
            GoesOn(r.0) && AnchorsAbort(o, cert, anchors[1..], r.1)))
  }

  /** The run of `build_chain_inner` comes to such flags. */
  predicate SearchAborts(o: ChainOptions, cert: Cert, subCaCount: nat, t: Tally)
    requires !cert.UsedAsCa() ==> subCaCount == 0
    decreases Height(cert, subCaCount), 1, 0
  {
    var t0 := t.(calls := t.calls + 1);
    && CheckIssuerIndependentProperties(cert.own, o.time, cert.UsedAsCa(), subCaCount, o.eku).Ok?
    && !TooDeep(cert, subCaCount)
    && (|| AnchorsAbort(o, cert, o.trustAnchors, t0)
        || (var a := TryAnchors(o, cert, o.trustAnchors, UnknownIssuer, t0);
            a.0.Err? && PoolAborts(o, cert, subCaCount, o.intermediates, a.1)))
  }

  predicate EntryAborts(o: ChainOptions, cert: Cert, subCaCount: nat, entry: PoolEntry, t: Tally)
    requires (!cert.UsedAsCa() ==> subCaCount == 0) && !TooDeep(cert, subCaCount)
    decreases Height(cert, subCaCount), 0, 0
  {
    var step := ClimbStep(o, cert, entry);
    step.Ok? && SearchAborts(o, Cert(step.value, Ca(cert)), NextSubCaCount(cert, subCaCount), t)
  }

  predicate PoolAborts(o: ChainOptions, cert: Cert, subCaCount: nat, pool: seq<PoolEntry>, t: Tally)
    requires (!cert.UsedAsCa() ==> subCaCount == 0) && !TooDeep(cert, subCaCount)
    decreases Height(cert, subCaCount), 0, |pool|
  {
    && pool != []
    && (|| EntryAborts(o, cert, subCaCount, pool[0], t)
        || (var r := EntryStep(o, cert, subCaCount, pool[0], t);
            GoesOn(r.0) && PoolAborts(o, cert, subCaCount, pool[1..], r.1)))
  }

  method CheckRevocation(o: ChainOptions, rev: RevocationOptions, cert: Cert, issuerSubject: Bytes,
                         issuerSpki: Bytes, issuerKeyUsage: Option<Bytes>, counter: Counter) returns (res: Outcome)
    requires cert.own.issuer == issuerSubject
    requires !CheckCrlsAborts(o, rev, cert, issuerSpki, issuerKeyUsage)
    modifies counter
    ensures res == CheckCrls(o, rev, cert, issuerSpki, issuerKeyUsage)
    ensures counter.tally == if CrlToCheck(rev, cert).Some?
                             then old(counter.tally).(crlVerifies := old(counter.tally).crlVerifies + 1)
                             else old(counter.tally)
  {
    hide CrlAuthoritative, CrlAborts, CheckCrlSign, HasFlagOctets;
    if rev.depth.EndEntityOnly? && cert.eeOrCa.Ca? {
      return DONE;
    }
    var crl: Option<RevocationList> := None;
    var i := 0;
    while i < |rev.crls| && crl.None?
      invariant 0 <= i <= |rev.crls| && counter.tally == old(counter.tally)
      invariant crl.None? ==> forall j :: 0 <= j < i ==> !CrlAuthoritative(rev.crls[j], cert)
      invariant FirstAuthoritative(rev.crls, cert) == if crl.Some? then crl else FirstAuthoritative(rev.crls[i..], cert)
    {
      var authoritative := IsCrlAuthoritative(rev.crls[i], cert);
      if authoritative {
        crl := Some(rev.crls[i]);
      }
      i := i + 1;
    }
    assert CrlToCheck(rev, cert) == crl;
    if crl.None? {
      return if rev.statusRequirement.Allow? then DONE else Err(UnknownRevocationStatus);
    }
    counter.tally := counter.tally.(crlVerifies := counter.tally.crlVerifies + 1);
    var signature := o.verify(issuerSpki, crl.value.signedData);
    if signature.Err? {
      return Err(CrlSignatureErr(signature.error));
    }
    var _ :- CheckKeyUsage(issuerKeyUsage);
    var found :- FindSerial(crl.value, cert.own.serial);
    return if found.Some? then Err(CertRevoked) else DONE;
  }

  /** `check_signatures` */
  method CheckSignaturesDown(o: ChainOptions, chain: Cert, anchor: TrustAnchor, counter: Counter) returns (res: Outcome)
    requires Linked(chain) && chain.own.issuer == anchor.subject
    requires !SignaturesAbort(o, chain, anchor.spki, None, counter.tally)
    modifies counter
    ensures (res, counter.tally) == CheckSignatures(o, chain, anchor.spki, None, old(counter.tally))
  {
    hide CheckCrlsAborts, CheckCrls, CrlToCheck;
    var spki := anchor.spki;
    var issuerSubject := anchor.subject;
    var keyUsage: Option<Bytes> := None;
    var cert := chain;
    while true
      invariant CheckSignatures(o, chain, anchor.spki, None, old(counter.tally))
             == CheckSignatures(o, cert, spki, keyUsage, counter.tally)
      invariant Linked(cert) && cert.own.issuer == issuerSubject
      invariant !SignaturesAbort(o, cert, spki, keyUsage, counter.tally)
      decreases cert
    {
      counter.tally := counter.tally.(signatures := counter.tally.signatures + 1);
      if counter.tally.signatures > MAX_SIGNATURES {
        return Err(MaximumSignatureChecksExceeded);
      }
      counter.tally := counter.tally.(certVerifies := counter.tally.certVerifies + 1);
      var _ :- o.verify(spki, cert.own.signedData);
      if o.revocation.Some? {
        var _ :- CheckRevocation(o, o.revocation.value, cert, issuerSubject, spki, keyUsage, counter);
      }
      if cert.eeOrCa.EndEntity? {
        break;
      }
      spki := cert.own.spki;
      issuerSubject := cert.own.subject;
      keyUsage := cert.own.keyUsage;
      cert := cert.eeOrCa.child;
    }
    return DONE;
  }

  /** `build_chain_inner`; the first loop leaves its error to the second one. */
  method BuildChainInner(o: ChainOptions, cert: Cert, subCaCount: nat, counter: Counter) returns (res: Outcome)
    requires !cert.UsedAsCa() ==> subCaCount == 0
    requires Linked(cert)
    requires !SearchAborts(o, cert, subCaCount, counter.tally)
    modifies counter
    ensures (res, counter.tally) == Search(o, cert, subCaCount, old(counter.tally))
    decreases Height(cert, subCaCount)
  {
    hide CheckIssuerIndependentProperties, AnchorStep, AnchorsAbort, ClimbStep;
    counter.tally := counter.tally.(calls := counter.tally.calls + 1);
    var _ :- CheckIssuerIndependentProperties(cert.own, o.time, cert.UsedAsCa(), subCaCount, o.eku);
    if cert.UsedAsCa() {
      if subCaCount >= MAX_SUB_CA_COUNT {
        return Err(UnknownIssuer);
      }
    } else {
      assert subCaCount == 0;
    }
    res := TryTrustAnchors(o, cert, counter);
    if res.Ok? {
      return res;
    }
    ghost var afterAnchors, anchorError := counter.tally, res.error;
    assert Search(o, cert, subCaCount, old(counter.tally))
        == TryPool(o, cert, subCaCount, o.intermediates, anchorError, afterAnchors);
    var error := res.error;
    for i := 0 to |o.intermediates|
      invariant TryPool(o, cert, subCaCount, o.intermediates, anchorError, afterAnchors)
             == TryPool(o, cert, subCaCount, o.intermediates[i..], error, counter.tally)
      invariant !PoolAborts(o, cert, subCaCount, o.intermediates[i..], counter.tally)
    {
      ghost var rest := o.intermediates[i..];
      assert rest[0] == o.intermediates[i] && rest[1..] == o.intermediates[i + 1..];
      var step := ClimbFrom(o, cert, o.intermediates[i]);
      var result: Outcome;
      if step.Err? {
        result := Err(step.error);
      } else {
        var issuer := Cert(step.value, Ca(cert));
        ClimbKeepsLinks(o, cert, o.intermediates[i]);
        result := BuildChainInner(o, issuer, NextSubCaCount(cert, subCaCount), counter);
      }
      if result.Ok? {
        return result;
      }
      if result.error == MaximumSignatureChecksExceeded {
        return result;
      }
      error := error.MostSpecific(result.error);
    }
    return Err(error);
  }

  method TryTrustAnchors(o: ChainOptions, cert: Cert, counter: Counter) returns (res: Outcome)
    requires Linked(cert)
    requires !AnchorsAbort(o, cert, o.trustAnchors, counter.tally)
    modifies counter
    ensures (res, counter.tally) == TryAnchors(o, cert, o.trustAnchors, UnknownIssuer, old(counter.tally))
  {
    hide AnchorStep, AnchorAborts;
    var error := UnknownIssuer;
    for i := 0 to |o.trustAnchors|
      invariant TryAnchors(o, cert, o.trustAnchors, UnknownIssuer, old(counter.tally))
             == TryAnchors(o, cert, o.trustAnchors[i..], error, counter.tally)
      invariant !AnchorsAbort(o, cert, o.trustAnchors[i..], counter.tally)
    {
      ghost var rest := o.trustAnchors[i..];
      assert rest[0] == o.trustAnchors[i] && rest[1..] == o.trustAnchors[i + 1..];
      var result := TryAnchor(o, cert, o.trustAnchors[i], counter);
      if result.Ok? {
        return result;
      }
      if result.error == MaximumSignatureChecksExceeded {
        return result;
      }
      error := error.MostSpecific(result.error);
    }
    return Err(error);
  }

  method TryAnchor(o: ChainOptions, cert: Cert, anchor: TrustAnchor, counter: Counter) returns (res: Outcome)
    requires Linked(cert)
    requires !AnchorAborts(o, cert, anchor, counter.tally)
    modifies counter
    ensures (res, counter.tally) == AnchorStep(o, cert, anchor, old(counter.tally))
  {
    hide CheckNameConstraints, CheckSignatures, SignaturesAbort;
    if cert.own.issuer != anchor.subject {
      return Err(UnknownIssuer);
    }
    var _ :- CheckConstraints(anchor.nameConstraints, cert, Contents(o, cert));
    res := CheckSignaturesDown(o, cert, anchor, counter);
  }

  /** What the loop over the intermediates does before it calls itself. */
  method ClimbFrom(o: ChainOptions, cert: Cert, entry: PoolEntry) returns (res: Result<Parsed>)
    ensures res == ClimbStep(o, cert, entry)
  {
    hide CheckNameConstraints;
    if entry.Err? {
      return Err(entry.error);
    }
    var issuer := entry.value;
    if issuer.subject != cert.own.issuer {
      return Err(UnknownIssuer);
    }
    var prev := cert;
    while true
      invariant LoopsBack(issuer, cert) == LoopsBack(issuer, prev)
      decreases prev
    {
      if SameKeyAndSubject(issuer, prev.own) {
        return Err(UnknownIssuer);
      }
      if prev.eeOrCa.EndEntity? {
        break;
      }
      prev := prev.eeOrCa.child;
    }
    var _ :- CheckConstraints(issuer.nameConstraints, cert, Contents(o, cert));
    return Ok(issuer);
  }

  lemma ClimbKeepsLinks(o: ChainOptions, cert: Cert, entry: PoolEntry)
    requires ClimbStep(o, cert, entry).Ok?
    ensures entry.Ok? && ClimbStep(o, cert, entry).value == entry.value
    ensures entry.value.subject == cert.own.issuer && !LoopsBack(entry.value, cert)
  {
    hide CheckNameConstraints;
  }
}
