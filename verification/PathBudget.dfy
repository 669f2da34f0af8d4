/** The signature budget over whole runs (src/verify_cert.rs:251-294). */
module PathBudget {
  import opened Basics
  import opened Certificates
  import opened NameConstraints
  import opened PathSearch

  /** At most 100 certificate signatures are verified, and at most one CRL signature beside each. */
  predicate InBudget(t: Tally) {
    && t.certVerifies == (if t.signatures <= 100 then t.signatures else 100)
    && t.crlVerifies <= t.certVerifies
  }

  /** What every step of a run keeps: the counter never goes back, and once it has passed the limit
      nothing succeeds any more. */
  predicate Spends(r: (Outcome, Tally), t: Tally) {
    && (InBudget(t) ==> InBudget(r.1))
    && t.signatures <= r.1.signatures && t.certVerifies <= r.1.certVerifies && t.crlVerifies <= r.1.crlVerifies
    && (r.1.signatures > 100 ==> r.0.Err?)
  }

  lemma {:induction false} SignaturesSpend(o: ChainOptions, cert: Cert, spki: Bytes, keyUsage: Option<Bytes>, t: Tally)
    ensures Spends(CheckSignatures(o, cert, spki, keyUsage, t), t)
    decreases cert
  {
    hide CheckSigned, CrlToCheck;
    if cert.eeOrCa.Ca? {
      SignaturesSpend(o, cert.eeOrCa.child, cert.own.spki, cert.own.keyUsage, CountCrl(o, cert, CountVerify(t)));
    }
  }

  lemma AnchorSpends(o: ChainOptions, cert: Cert, anchor: TrustAnchor, t: Tally)
    ensures Spends(AnchorStep(o, cert, anchor, t), t)
  {
    hide CheckNameConstraints, CheckSignatures;
    SignaturesSpend(o, cert, anchor.spki, None, t);
  }

  lemma {:induction false} AnchorsSpend(o: ChainOptions, cert: Cert, anchors: seq<TrustAnchor>, err: Error, t: Tally)
    ensures Spends(TryAnchors(o, cert, anchors, err, t), t)
  {
    hide AnchorStep, Error.MostSpecific;
    if anchors != [] {
      AnchorSpends(o, cert, anchors[0], t);
      var r := AnchorStep(o, cert, anchors[0], t);
      if r.0.Err? {
        AnchorsSpend(o, cert, anchors[1..], err.MostSpecific(r.0.error), r.1);
      }
    }
  }

  /** Every call of `build_chain_inner` keeps the budget, whatever the pools and wherever it starts. */
  lemma {:induction false} SearchSpends(o: ChainOptions, cert: Cert, subCaCount: nat, t: Tally)
    requires !cert.UsedAsCa() ==> subCaCount == 0
    ensures Spends(Search(o, cert, subCaCount, t), t)
    decreases Height(cert, subCaCount), 1, 0
  {
    hide CheckIssuerIndependentProperties, TryAnchors, TryPool;
    var t0 := t.(calls := t.calls + 1);
    AnchorsSpend(o, cert, o.trustAnchors, UnknownIssuer, t0);
    var a := TryAnchors(o, cert, o.trustAnchors, UnknownIssuer, t0);
    if !TooDeep(cert, subCaCount) && a.0.Err? {
      PoolSpends(o, cert, subCaCount, o.intermediates, a.0.error, a.1);
    }
  }

  lemma {:induction false} PoolSpends(o: ChainOptions, cert: Cert, subCaCount: nat, pool: seq<PoolEntry>, err: Error, t: Tally)
    requires (!cert.UsedAsCa() ==> subCaCount == 0) && !TooDeep(cert, subCaCount)
    ensures Spends(TryPool(o, cert, subCaCount, pool, err, t), t)
    decreases Height(cert, subCaCount), 0, |pool|
  {
    hide ClimbStep, Search, Error.MostSpecific;
    if pool != [] {
      var step := ClimbStep(o, cert, pool[0]);
      if step.Ok? {
        SearchSpends(o, Cert(step.value, Ca(cert)), NextSubCaCount(cert, subCaCount), t);
      }
      var r := EntryStep(o, cert, subCaCount, pool[0], t);
      if r.0.Err? {
        PoolSpends(o, cert, subCaCount, pool[1..], err.MostSpecific(r.0.error), r.1);
      }
    }
  }

  /** A whole run verifies at most 100 signatures of certificates and at most as many of CRLs. */
  lemma RunIsInBudget(o: ChainOptions, endEntity: Parsed)
    ensures
      var r := Search(o, Cert(endEntity, EndEntity), 0, Tally(0, 0, 0, 0));
      && r.1.crlVerifies <= r.1.certVerifies <= 100
      && (r.1.signatures <= 100 ==> r.1.certVerifies == r.1.signatures)
  {
    SearchSpends(o, Cert(endEntity, EndEntity), 0, Tally(0, 0, 0, 0));
    hide Search;
  }
}
