/** When a run comes to flags without an octet, on which the source aborts: the key usage of an issuer or
    the reasons of a distribution point (src/der.rs:326-350, src/verify_cert.rs:326-346, src/cert.rs:300-302). */
module PathAborts {
  import opened Basics
  import opened Certificates
  import opened Crl
  import opened NameConstraints
  import opened PathErrors
  import opened PathSearch
  import opened PathMeaning
  import opened PathOutcome
  import opened PathBudget

  /** The walk down from this anchor comes to the certificate at `k`: the path may be climbed, and all
      certificates above are signed and not revoked. */
  ghost predicate WalksTo(o: ChainOptions, path: seq<Parsed>, anchor: TrustAnchor, k: nat) {
    && k < |path| <= 7
    && Climbs(o, path) && PassesAlone(o, path, |path| - 1)
    && anchor in o.trustAnchors
    && path[|path| - 1].issuer == anchor.subject && NamesAllowed(o, anchor.nameConstraints, path)
    && forall j :: k < j < |path| ==> SignedAt(o, path, j, anchor.spki, None)
  }

  predicate AbortsBelow(o: ChainOptions, path: seq<Parsed>, k: nat, spki: Bytes, keyUsage: Option<Bytes>)
    requires k < |path|
  {
    && o.verify(KeyAbove(path, k, spki), path[k].signedData).Ok?
    && StatusAborts(o, ChainOf(path[..k + 1]), KeyAbove(path, k, spki), KeyUsageAbove(path, k, keyUsage))
  }

  /** And there the check of the certificate comes to flags without an octet. */
  ghost predicate AbortsAt(o: ChainOptions, path: seq<Parsed>, anchor: TrustAnchor, k: nat) {
    WalksTo(o, path, anchor, k) && AbortsBelow(o, path, k, anchor.spki, None)
  }

  // ----- an aborting run stands on a path

  lemma TopAborts(o: ChainOptions, path: seq<Parsed>, spki: Bytes, keyUsage: Option<Bytes>)
    requires path != []
    ensures
      var cert := ChainOf(path);
      AbortsBelow(o, path, |path| - 1, spki, keyUsage) <==>
      o.verify(spki, cert.own.signedData).Ok? && StatusAborts(o, cert, spki, keyUsage)
    ensures SignedAt(o, path, |path| - 1, spki, keyUsage) <==> CheckSigned(o, ChainOf(path), spki, keyUsage).Ok?
  {
    hide StatusAborts, CheckSigned, SignedAt;
    assert path[..|path|] == path;
    SignedAtExactly(o, path, |path| - 1, spki, keyUsage);
  }

  /** Below the top the walk is the walk from the top's key and key usage. */
  lemma BelowTop(o: ChainOptions, path: seq<Parsed>, k: nat, spki: Bytes, keyUsage: Option<Bytes>)
    requires k + 1 < |path|
    ensures
      var top := |path| - 1;
      && (AbortsBelow(o, path, k, spki, keyUsage) <==> AbortsBelow(o, path[..top], k, path[top].spki, path[top].keyUsage))
      && (SignedAt(o, path, k, spki, keyUsage) <==> SignedAt(o, path[..top], k, path[top].spki, path[top].keyUsage))
  {
    hide StatusAborts, RevocationStatus.StatusKnown, ChainOf;
    assert path[..|path| - 1][..k + 1] == path[..k + 1];
  }

  lemma {:induction false} SignaturesAbortAt(o: ChainOptions, path: seq<Parsed>, spki: Bytes, keyUsage: Option<Bytes>, t: Tally) returns (k: nat)
    requires path != [] && SignaturesAbort(o, ChainOf(path), spki, keyUsage, t)
    ensures k < |path| && AbortsBelow(o, path, k, spki, keyUsage)
    ensures forall j :: k < j < |path| ==> SignedAt(o, path, j, spki, keyUsage)
  {
    hide StatusAborts, CheckSigned, CrlToCheck, AbortsBelow, SignedAt;
    var top := |path| - 1;
    var cert := ChainOf(path);
    TopAborts(o, path, spki, keyUsage);
    if StatusAborts(o, cert, spki, keyUsage) {
      k := top;
    } else {
      k := SignaturesAbortAt(o, path[..top], path[top].spki, path[top].keyUsage, CountCrl(o, cert, CountVerify(t)));
      BelowTop(o, path, k, spki, keyUsage);
      forall j | k < j < |path|
        ensures SignedAt(o, path, j, spki, keyUsage)
      {
        if j < top {
          BelowTop(o, path, j, spki, keyUsage);
        }
      }
    }
  }

  lemma {:induction false} SomeAnchorAborts(o: ChainOptions, cert: Cert, anchors: seq<TrustAnchor>, t: Tally) returns (anchor: TrustAnchor, at: Tally)
    requires AnchorsAbort(o, cert, anchors, t)
    ensures anchor in anchors && AnchorAborts(o, cert, anchor, at)
  {
    hide AnchorAborts, AnchorStep;
    if AnchorAborts(o, cert, anchors[0], t) {
      anchor, at := anchors[0], t;
    } else {
      anchor, at := SomeAnchorAborts(o, cert, anchors[1..], AnchorStep(o, cert, anchors[0], t).1);
    }
  }

  lemma {:induction false} SomeEntryAborts(o: ChainOptions, cert: Cert, subCaCount: nat, pool: seq<PoolEntry>, t: Tally) returns (entry: PoolEntry, at: Tally)
    requires (!cert.UsedAsCa() ==> subCaCount == 0) && !TooDeep(cert, subCaCount)
    requires PoolAborts(o, cert, subCaCount, pool, t)
    ensures entry in pool && EntryAborts(o, cert, subCaCount, entry, at)
  {
    hide EntryAborts, EntryStep;
    if EntryAborts(o, cert, subCaCount, pool[0], t) {
      entry, at := pool[0], t;
    } else {
      entry, at := SomeEntryAborts(o, cert, subCaCount, pool[1..], EntryStep(o, cert, subCaCount, pool[0], t).1);
    }
  }

  lemma AnchorAbortsAt(o: ChainOptions, path: seq<Parsed>, anchor: TrustAnchor, t: Tally) returns (k: nat)
    requires Climbs(o, path) && PassesAlone(o, path, |path| - 1) && |path| <= 7
    requires anchor in o.trustAnchors && AnchorAborts(o, ChainOf(path), anchor, t)
    ensures AbortsAt(o, path, anchor, k)
  {
    hide CheckNameConstraints, SignaturesAbort, NamesAllowed, AbortsBelow, SignedAt, Climbs, PassesAlone;
    assert path != [] by {
      ClimbsSomething(o, path);
    }
    NamesAllowedExactly(o, anchor.nameConstraints, path);
    k := SignaturesAbortAt(o, path, anchor.spki, None, t);
  }

  lemma ClimbsSomething(o: ChainOptions, path: seq<Parsed>)
    requires Climbs(o, path)
    ensures path != []
  {
    hide PassesAlone, ClimbsAt;
  }

  /** A run that aborts has climbed to such a path. */
  lemma {:induction false} AbortsOnAPath(o: ChainOptions, path: seq<Parsed>, t: Tally) returns (full: seq<Parsed>, anchor: TrustAnchor, k: nat)
    requires Climbs(o, path) && SearchAborts(o, ChainOf(path), SubCas(|path| - 1), t)
    ensures path <= full && AbortsAt(o, full, anchor, k)
    decreases Height(ChainOf(path), SubCas(|path| - 1))
  {
    hide CheckIssuerIndependentProperties, PassesAlone, Climbs, AnchorsAbort, TryAnchors, PoolAborts, ClimbStep, MayFollow, AbortsAt;
    var cert, n := ChainOf(path), SubCas(|path| - 1);
    PassesAloneExactly(o, path);
    var t0 := t.(calls := t.calls + 1);
    if AnchorsAbort(o, cert, o.trustAnchors, t0) {
      var at;
      anchor, at := SomeAnchorAborts(o, cert, o.trustAnchors, t0);
      k := AnchorAbortsAt(o, path, anchor, at);
      full := path;
    } else {
      var entry, at := SomeEntryAborts(o, cert, n, o.intermediates, TryAnchors(o, cert, o.trustAnchors, UnknownIssuer, t0).1);
      ClimbExactly(o, path, entry);
      Extended(o, path, entry.value);
      assert (path + [entry.value])[..|path|] == path;
      full, anchor, k := AbortsOnAPath(o, path + [entry.value], at);
    }
  }

  // ----- such a path makes the run abort

  lemma {:induction false} WalkAborts(o: ChainOptions, path: seq<Parsed>, k: nat, spki: Bytes, keyUsage: Option<Bytes>, t: Tally)
    requires k < |path| && AbortsBelow(o, path, k, spki, keyUsage)
    requires forall j :: k < j < |path| ==> SignedAt(o, path, j, spki, keyUsage)
    requires CheckSignatures(o, ChainOf(path), spki, keyUsage, t).1.signatures <= 100
    ensures SignaturesAbort(o, ChainOf(path), spki, keyUsage, t)
  {
    hide StatusAborts, CheckSigned, CrlToCheck, AbortsBelow, SignedAt;
    var top := |path| - 1;
    TopAborts(o, path, spki, keyUsage);
    if k < top {
      assert SignedAt(o, path, top, spki, keyUsage);
      VerifiesFirst(o, ChainOf(path), spki, keyUsage);
      BelowTop(o, path, k, spki, keyUsage);
      forall j | k < j < top
        ensures SignedAt(o, path[..top], j, path[top].spki, path[top].keyUsage)
      {
        BelowTop(o, path, j, spki, keyUsage);
      }
      WalkAborts(o, path[..top], k, path[top].spki, path[top].keyUsage, CountCrl(o, ChainOf(path), CountVerify(t)));
    }
  }

  lemma VerifiesFirst(o: ChainOptions, cert: Cert, spki: Bytes, keyUsage: Option<Bytes>)
    requires CheckSigned(o, cert, spki, keyUsage).Ok?
    ensures o.verify(spki, cert.own.signedData).Ok?
  {
    hide CheckCrls;
  }

  lemma WalkFromAnchorAborts(o: ChainOptions, path: seq<Parsed>, anchor: TrustAnchor, k: nat, t: Tally)
    requires AbortsAt(o, path, anchor, k)
    requires AnchorStep(o, ChainOf(path), anchor, t).1.signatures <= 100
    ensures AnchorAborts(o, ChainOf(path), anchor, t)
  {
    hide CheckNameConstraints, CheckSignatures, SignaturesAbort, NamesAllowed, AbortsBelow, SignedAt, Climbs, PassesAlone;
    NamesAllowedExactly(o, anchor.nameConstraints, path);
    WalkAborts(o, path, k, anchor.spki, None, t);
  }

  /** A loop that fails within the budget has come to every anchor, unless it aborts before. */
  lemma {:induction false} AnchorsComeTo(o: ChainOptions, path: seq<Parsed>, anchor: TrustAnchor, k: nat,
                                         anchors: seq<TrustAnchor>, err: Error, t: Tally)
    requires AbortsAt(o, path, anchor, k) && anchor in anchors
    requires
      var r := TryAnchors(o, ChainOf(path), anchors, err, t);
      r.0.Err? && r.1.signatures <= 100
    ensures AnchorsAbort(o, ChainOf(path), anchors, t)
  {
    hide AbortsAt, AnchorStep, AnchorAborts, AnchorCost, AnchorOutcome, AnchorErrors, MostSpecificOf, Error.MostSpecific;
    var cert := ChainOf(path);
    var first := AnchorStep(o, cert, anchors[0], t);
    AnchorWithinBudget(o, cert, anchors[0], t);
    if GoesOn(first.0) {
      AnchorsSpend(o, cert, anchors[1..], err.MostSpecific(first.0.error), first.1);
    }
    if anchors[0] == anchor {
      WalkFromAnchorAborts(o, path, anchor, k, t);
    } else {
      AnchorsComeTo(o, path, anchor, k, anchors[1..], err.MostSpecific(first.0.error), first.1);
    }
  }

  /** A search from a path below, when it fails within the budget, comes to the place where it aborts. */
  lemma {:induction false} SearchComesTo(o: ChainOptions, full: seq<Parsed>, anchor: TrustAnchor, k: nat, m: nat, t: Tally)
    requires AbortsAt(o, full, anchor, k) && 1 <= m <= |full|
    requires
      var r := Search(o, ChainOf(full[..m]), SubCas(m - 1), t);
      r.0.Err? && r.1.signatures <= 100
    ensures SearchAborts(o, ChainOf(full[..m]), SubCas(m - 1), t)
    decreases |full| - m, 1, 0
  {
    hide CheckIssuerIndependentProperties, TryAnchors, AnchorsAbort, TryPool, PoolAborts, AbortsBelow, NamesAllowed, SignedAt, ClimbsAt, ClimbStep;
    hide CertificateMeaning.ValidAt, CertificateMeaning.MayBeUsed, CertificateMeaning.HasPurpose;
    var path := full[..m];
    var cert, n := ChainOf(path), SubCas(m - 1);
    assert PassesAlone(o, full, m - 1);
    PassesAloneExactly(o, path);
    var t0 := t.(calls := t.calls + 1);
    var a := TryAnchors(o, cert, o.trustAnchors, UnknownIssuer, t0);
    if m == |full| {
      assert path == full;
      if a.0.Err? {
        PoolSpends(o, cert, n, o.intermediates, a.0.error, a.1);
        AnchorsComeTo(o, full, anchor, k, o.trustAnchors, UnknownIssuer, t0);
      }
    } else if a.0.Err? {
      assert ClimbsAt(o, full, m);
      InPool(o, full, m);
      PoolComesTo(o, full, anchor, k, m, o.intermediates, a.0.error, a.1);
    }
  }

  lemma InPool(o: ChainOptions, path: seq<Parsed>, m: nat)
    requires 0 < m < |path| && ClimbsAt(o, path, m)
    ensures Ok(path[m]) in o.intermediates
    ensures ClimbStep(o, ChainOf(path[..m]), Ok(path[m])) == Ok(path[m])
  {
    hide MayFollow, ClimbStep;
    ClimbExactly(o, path[..m], Ok(path[m]));
  }

  lemma {:induction false} PoolComesTo(o: ChainOptions, full: seq<Parsed>, anchor: TrustAnchor, k: nat, m: nat,
                                       pool: seq<PoolEntry>, err: Error, t: Tally)
    requires AbortsAt(o, full, anchor, k) && 1 <= m < |full| <= 7 && Ok(full[m]) in pool
    requires ClimbStep(o, ChainOf(full[..m]), Ok(full[m])) == Ok(full[m])
    requires
      var r := TryPool(o, ChainOf(full[..m]), SubCas(m - 1), pool, err, t);
      r.0.Err? && r.1.signatures <= 100
    ensures PoolAborts(o, ChainOf(full[..m]), SubCas(m - 1), pool, t)
    decreases |full| - m, 0, |pool|
  {
    hide AbortsAt, ClimbStep, Search, SearchAborts, EntryUpTo, EntryAccepts, EntryErrors, MostSpecificOf, Error.MostSpecific;
    var cert, n := ChainOf(full[..m]), SubCas(m - 1);
    var first := EntryStep(o, cert, n, pool[0], t);
    EntryWithinBudget(o, cert, n, pool[0], t);
    if GoesOn(first.0) {
      PoolSpends(o, cert, n, pool[1..], err.MostSpecific(first.0.error), first.1);
    }
    if pool[0] == Ok(full[m]) {
      assert full[..m + 1][..m] == full[..m];
      SearchComesTo(o, full, anchor, k, m + 1, t);
    } else {
      PoolComesTo(o, full, anchor, k, m, pool[1..], err.MostSpecific(first.0.error), first.1);
    }
  }

  ghost predicate HasAbortingPath(o: ChainOptions, endEntity: Parsed) {
    exists path, anchor, k :: AbortsAt(o, path, anchor, k) && path[0] == endEntity
  }

  /** No run aborts without such a path; and a run that fails within its budget has come to every path,
      so it aborts exactly when there is one. */
  lemma AbortsExactly(o: ChainOptions, endEntity: Parsed)
    ensures
      var cert := Cert(endEntity, EndEntity);
      var r := Search(o, cert, 0, Tally(0, 0, 0, 0));
      && (SearchAborts(o, cert, 0, Tally(0, 0, 0, 0)) ==> HasAbortingPath(o, endEntity))
      && (r.0.Err? && r.1.signatures <= 100 ==>
            (SearchAborts(o, cert, 0, Tally(0, 0, 0, 0)) <==> HasAbortingPath(o, endEntity)))
  {
    hide Search, SearchAborts, PassesAlone, ClimbsAt, AbortsBelow, NamesAllowed, SignedAt;
    var path, t := [endEntity], Tally(0, 0, 0, 0);
    assert ChainOf(path) == Cert(endEntity, EndEntity);
    if SearchAborts(o, ChainOf(path), 0, t) {
      var full, anchor, k := AbortsOnAPath(o, path, t);
      assert full[0] == endEntity;
    }
    var r := Search(o, ChainOf(path), 0, t);
    if r.0.Err? && r.1.signatures <= 100 && HasAbortingPath(o, endEntity) {
      var full, anchor, k :| AbortsAt(o, full, anchor, k) && full[0] == endEntity;
      assert full[..1] == path;
      SearchComesTo(o, full, anchor, k, 1, t);
    }
  }

  // ----- inputs on which no run aborts

  predicate ReadablePoints(c: Parsed) {
    c.crlDistributionPoints.Some? ==> forall dp :: dp in c.crlDistributionPoints.value ==> !PointAborts(dp)
  }

  /** The flags of all key usages and of all reasons of distribution points have an octet. */
  predicate ReadableInputs(o: ChainOptions, endEntity: Parsed) {
    && ReadablePoints(endEntity)
    && forall entry :: entry in o.intermediates && entry.Ok? ==> ReadablePoints(entry.value) && HasFlagOctets(entry.value.keyUsage)
  }

  lemma UnreadableSomewhere(o: ChainOptions, path: seq<Parsed>, anchor: TrustAnchor, k: nat)
    requires AbortsAt(o, path, anchor, k)
    ensures o.revocation.Some? && (k > 0 ==> Ok(path[k]) in o.intermediates)
    ensures !ReadablePoints(path[k])
            || (k + 1 < |path| && Ok(path[k + 1]) in o.intermediates && !HasFlagOctets(path[k + 1].keyUsage))
  {
    hide PassesAlone, MayFollow, NamesAllowed, SignedAt, HasFlagOctets, ReadsKeyUsage, ComesToPoint;
    assert k > 0 ==> ClimbsAt(o, path, k);
    assert k + 1 < |path| ==> ClimbsAt(o, path, k + 1);
    NoKeyUsage();
  }

  lemma NoKeyUsage()
    ensures HasFlagOctets(None)
  {
  }

  /** Without revocation checking, or with readable inputs, no run aborts. */
  lemma ReadableNeverAborts(o: ChainOptions, endEntity: Parsed)
    requires o.revocation.Some? ==> ReadableInputs(o, endEntity)
    ensures !SearchAborts(o, Cert(endEntity, EndEntity), 0, Tally(0, 0, 0, 0))
  {
    hide Search, SearchAborts, Climbs, PassesAlone, NamesAllowed, SignedAt, AbortsBelow, HasFlagOctets, ReadablePoints;
    AbortsExactly(o, endEntity);
    if path, anchor, k :| AbortsAt(o, path, anchor, k) && path[0] == endEntity {
      UnreadableSomewhere(o, path, anchor, k);
    }
  }

  // ----- an input on which the source aborts

  /** The end entity is issued by the one intermediate, which the one anchor has issued; only the end
      entity is checked for revocation, with a CRL of its issuer. */
  ghost predicate OneIntermediate(o: ChainOptions, endEntity: Parsed, issuer: Parsed, anchor: TrustAnchor, crl: RevocationList) {
    && o.trustAnchors == [anchor] && o.intermediates == [Ok(issuer)]
    && o.revocation == Some(RevocationOptions([crl], EndEntityOnly, Deny))
    && CheckIssuerIndependentProperties(endEntity, o.time, false, 0, o.eku).Ok?
    && CheckIssuerIndependentProperties(issuer, o.time, true, 0, o.eku).Ok?
    && endEntity.issuer == issuer.subject && issuer.issuer == anchor.subject
    && issuer.subject != anchor.subject && endEntity.subject != issuer.subject
    && issuer.nameConstraints.None? && anchor.nameConstraints.None?
    && crl.issuer == endEntity.issuer && crl.idp.None? && endEntity.crlDistributionPoints.None?
    && forall key, data :: o.verify(key, data).Ok?
  }

  lemma IssuerLevel(o: ChainOptions, endEntity: Parsed, issuer: Parsed, anchor: TrustAnchor, crl: RevocationList, t: Tally)
    requires OneIntermediate(o, endEntity, issuer, anchor, crl) && t.signatures == 0
    ensures SignaturesAbort(o, Cert(issuer, Ca(Cert(endEntity, EndEntity))), anchor.spki, None, t) <==> !HasFlagOctets(issuer.keyUsage)
  {
    hide CheckIssuerIndependentProperties, HasFlagOctets, CheckCrlSign, RevocationList.FindSerial;
    var below := Cert(endEntity, EndEntity);
    var above := Cert(issuer, Ca(below));
    var rev := o.revocation.value;
    assert CrlToCheck(rev, above) == None && !StatusAborts(o, above, anchor.spki, None);
    assert CrlAuthoritative(crl, below) && CrlToCheck(rev, below) == Some(crl);
    assert o.verify(anchor.spki, issuer.signedData).Ok?;
    assert o.verify(issuer.spki, endEntity.signedData).Ok? && o.verify(issuer.spki, crl.signedData).Ok?;
    assert StatusAborts(o, below, issuer.spki, issuer.keyUsage) <==> !HasFlagOctets(issuer.keyUsage);
    assert SignaturesAbort(o, below, issuer.spki, issuer.keyUsage, CountCrl(o, above, CountVerify(t))) <==> !HasFlagOctets(issuer.keyUsage);
  }

  lemma NextLevel(o: ChainOptions, endEntity: Parsed, issuer: Parsed, anchor: TrustAnchor, crl: RevocationList, t: Tally)
    requires OneIntermediate(o, endEntity, issuer, anchor, crl) && t.signatures == 0
    ensures SearchAborts(o, Cert(issuer, Ca(Cert(endEntity, EndEntity))), 0, t) <==> !HasFlagOctets(issuer.keyUsage)
  {
    hide CheckIssuerIndependentProperties, SignaturesAbort, CheckSignatures, HasFlagOctets, CrlAuthoritative, StatusAborts;
    var cert := Cert(issuer, Ca(Cert(endEntity, EndEntity)));
    var t0 := t.(calls := t.calls + 1);
    IssuerLevel(o, endEntity, issuer, anchor, crl, t0);
    assert AnchorAborts(o, cert, anchor, t0) <==> !HasFlagOctets(issuer.keyUsage);
    assert AnchorsAbort(o, cert, [anchor], t0) <==> !HasFlagOctets(issuer.keyUsage);
    assert ClimbStep(o, cert, Ok(issuer)).Err?;
    assert !EntryAborts(o, cert, 0, Ok(issuer), TryAnchors(o, cert, o.trustAnchors, UnknownIssuer, t0).1);
    assert !PoolAborts(o, cert, 0, [Ok(issuer)], TryAnchors(o, cert, o.trustAnchors, UnknownIssuer, t0).1);
  }

  /** The run aborts exactly when the key usage of that intermediate begins with an empty BIT STRING. */
  lemma AbortsOnFlaglessIssuer(o: ChainOptions, endEntity: Parsed, issuer: Parsed, anchor: TrustAnchor, crl: RevocationList)
    requires OneIntermediate(o, endEntity, issuer, anchor, crl)
    ensures SearchAborts(o, Cert(endEntity, EndEntity), 0, Tally(0, 0, 0, 0))
       <==> issuer.keyUsage.Some? && FLAGLESS <= issuer.keyUsage.value
  {
    hide CheckIssuerIndependentProperties, SignaturesAbort, CheckSignatures, CrlAuthoritative, StatusAborts;
    var below := Cert(endEntity, EndEntity);
    var t := Tally(0, 0, 0, 1);
    NextLevel(o, endEntity, issuer, anchor, crl, t);
    assert TryAnchors(o, below, [anchor], UnknownIssuer, t) == (Err(UnknownIssuer), t);
    assert !AnchorsAbort(o, below, [anchor], t);
    assert ClimbStep(o, below, Ok(issuer)) == Ok(issuer);
    assert EntryAborts(o, below, 0, Ok(issuer), t) <==> !HasFlagOctets(issuer.keyUsage);
    assert PoolAborts(o, below, 0, [Ok(issuer)], t) <==> !HasFlagOctets(issuer.keyUsage);
    if issuer.keyUsage.Some? {
      FlaglessExactly(issuer.keyUsage.value);
    }
  }

  /** The end entity is issued by the one anchor, has one distribution point with reasons, and is looked
      for in a CRL of its issuer that has full names. */
  ghost predicate OnePoint(o: ChainOptions, endEntity: Parsed, anchor: TrustAnchor, crl: RevocationList, idp: IssuingDistributionPoint,
                           names: Bytes, reasons: Bytes) {
    && o.trustAnchors == [anchor] && o.intermediates == []
    && o.revocation == Some(RevocationOptions([crl], RevocationCheckDepth.Chain, Deny))
    && CheckIssuerIndependentProperties(endEntity, o.time, false, 0, o.eku).Ok?
    && endEntity.issuer == anchor.subject && anchor.nameConstraints.None?
    && crl.issuer == endEntity.issuer && crl.idp == Some(Ok(idp))
    && !idp.onlyContainsCaCerts && FullNameOf(idp.distributionPoint).Some?
    && endEntity.crlDistributionPoints == Some([Ok(CrlDistributionPoint.CrlDistributionPoint(Some(names), Some(reasons), None))])
    && forall key, data :: o.verify(key, data).Ok?
  }

  /** The run aborts exactly when the contents of the reasons are one zero octet. */
  lemma AbortsOnFlaglessReasons(o: ChainOptions, endEntity: Parsed, anchor: TrustAnchor, crl: RevocationList, idp: IssuingDistributionPoint,
                                names: Bytes, reasons: Bytes)
    requires OnePoint(o, endEntity, anchor, crl, idp, names, reasons)
    ensures SearchAborts(o, Cert(endEntity, EndEntity), 0, Tally(0, 0, 0, 0)) <==> reasons == [0]
  {
    hide CheckIssuerIndependentProperties, FullNameOf, GeneralNames, FirstUri, HasUri, CheckSignatures, Error.Rank;
    var cert, t := Cert(endEntity, EndEntity), Tally(0, 0, 0, 1);
    var dp := endEntity.crlDistributionPoints.value[0];
    assert ComesToPoint(GeneralNames(FullNameOf(idp.distributionPoint).value), [dp], 0);
    assert CrlAborts(crl, cert) <==> NoFlagOctet(reasons);
    assert !CrlAuthoritative(crl, cert) && [crl][1..] == [];
    assert FirstAuthoritative([crl], cert) == FirstAuthoritative([], cert) == None;
    assert CrlsAbort([crl], cert) <==> NoFlagOctet(reasons);
    assert StatusAborts(o, cert, anchor.spki, None) <==> NoFlagOctet(reasons);
    assert o.verify(anchor.spki, endEntity.signedData).Ok?;
    assert SignaturesAbort(o, cert, anchor.spki, None, t) <==> NoFlagOctet(reasons);
    assert AnchorsAbort(o, cert, [anchor], t) <==> NoFlagOctet(reasons);
  }
}
