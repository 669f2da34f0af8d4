/** When a run that exceeds its signature budget says so (src/verify_cert.rs:209-214, 263-266, 659-676, src/error.rs:185-247). */
module PathSpent {
  import opened Basics
  import opened Certificates
  import opened NameConstraints
  import opened PathErrors
  import opened PathSearch
  import opened PathOutcome

  // ----- a budget that is spent already

  /** The loop over the anchors comes to the signatures under this one. */
  predicate Tried(o: ChainOptions, cert: Cert, anchor: TrustAnchor) {
    cert.own.issuer == anchor.subject && CheckNameConstraints(anchor.nameConstraints, cert, Contents(o, cert)).Ok?
  }

  predicate SomeAnchorTried(o: ChainOptions, cert: Cert, anchors: seq<TrustAnchor>) {
    exists anchor :: anchor in anchors && Tried(o, cert, anchor)
  }

  predicate AnchorOutranks(o: ChainOptions, cert: Cert, anchor: TrustAnchor) {
    AnchorOutcome(o, cert, anchor).Err? && AnchorOutcome(o, cert, anchor).error.Rank() > 0
  }

  predicate SomeAnchorOutranks(o: ChainOptions, cert: Cert, anchors: seq<TrustAnchor>) {
    exists anchor :: anchor in anchors && AnchorOutranks(o, cert, anchor)
  }

  /** With nothing left to spend the search ends with the budget error: some intermediate leads to a
      search that does, or an anchor is tried and no intermediate ends with an error that has a rank. */
  ghost predicate Reports(o: ChainOptions, cert: Cert, subCaCount: nat)
    requires !cert.UsedAsCa() ==> subCaCount == 0
    decreases Height(cert, subCaCount), 1
  {
    && MayClimb(o, cert, subCaCount)
    && (|| SomeEntryReports(o, cert, subCaCount, o.intermediates)
        || (SomeAnchorTried(o, cert, o.trustAnchors) && !SomeEntryOutranks(o, cert, subCaCount, o.intermediates)))
  }

  ghost predicate SomeEntryReports(o: ChainOptions, cert: Cert, subCaCount: nat, pool: seq<PoolEntry>)
    requires (!cert.UsedAsCa() ==> subCaCount == 0) && !TooDeep(cert, subCaCount)
    decreases Height(cert, subCaCount), 0, 1
  {
    exists entry :: entry in pool && EntryReports(o, cert, subCaCount, entry)
  }

  ghost predicate EntryReports(o: ChainOptions, cert: Cert, subCaCount: nat, entry: PoolEntry)
    requires (!cert.UsedAsCa() ==> subCaCount == 0) && !TooDeep(cert, subCaCount)
    decreases Height(cert, subCaCount), 0, 0
  {
    var step := ClimbStep(o, cert, entry);
    step.Ok? && Reports(o, Cert(step.value, Ca(cert)), NextSubCaCount(cert, subCaCount))
  }

  /** With nothing left to spend the search ends with an error that has a rank above 0. */
  ghost predicate Outranks(o: ChainOptions, cert: Cert, subCaCount: nat)
    requires !cert.UsedAsCa() ==> subCaCount == 0
    decreases Height(cert, subCaCount), 1
  {
    var own := CheckIssuerIndependentProperties(cert.own, o.time, cert.UsedAsCa(), subCaCount, o.eku);
    if own.Err? then own.error.Rank() > 0
    else
      && !TooDeep(cert, subCaCount)
      && !SomeEntryReports(o, cert, subCaCount, o.intermediates)
      && (|| SomeEntryOutranks(o, cert, subCaCount, o.intermediates)
          || (!SomeAnchorTried(o, cert, o.trustAnchors) && SomeAnchorOutranks(o, cert, o.trustAnchors)))
  }

  ghost predicate SomeEntryOutranks(o: ChainOptions, cert: Cert, subCaCount: nat, pool: seq<PoolEntry>)
    requires (!cert.UsedAsCa() ==> subCaCount == 0) && !TooDeep(cert, subCaCount)
    decreases Height(cert, subCaCount), 0, 1
  {
    exists entry :: entry in pool && EntryOutranks(o, cert, subCaCount, entry)
  }

  ghost predicate EntryOutranks(o: ChainOptions, cert: Cert, subCaCount: nat, entry: PoolEntry)
    requires (!cert.UsedAsCa() ==> subCaCount == 0) && !TooDeep(cert, subCaCount)
    decreases Height(cert, subCaCount), 0, 0
  {
    var step := ClimbStep(o, cert, entry);
    if step.Err? then step.error.Rank() > 0
    else Outranks(o, Cert(step.value, Ca(cert)), NextSubCaCount(cert, subCaCount))
  }

  /** A failure that leaves the budget spent, with the budget error or with one that has a rank. */
  predicate FailsAs(r: (Outcome, Tally), reports: bool, outranks: bool) {
    && r.0.Err? && r.1.signatures >= MAX_SIGNATURES
    && (r.0.error == MaximumSignatureChecksExceeded <==> reports)
    && (r.0.error.Rank() > 0 <==> outranks)
  }

  /** The better error keeps the budget error only against errors without a rank. */
  lemma BestOfTwo(err: Error, next: Error)
    requires next != MaximumSignatureChecksExceeded
    ensures err.MostSpecific(next) == MaximumSignatureChecksExceeded <==> err == MaximumSignatureChecksExceeded && next.Rank() == 0
    ensures err.MostSpecific(next).Rank() > 0 <==> err.Rank() > 0 || next.Rank() > 0
  {
    hide Error.Rank;
    BudgetErrorHasNoRank();
  }

  lemma BudgetErrorHasNoRank()
    ensures MaximumSignatureChecksExceeded.Rank() == 0
  {
  }

  lemma SpentAnchor(o: ChainOptions, cert: Cert, anchor: TrustAnchor, t: Tally)
    requires t.signatures >= MAX_SIGNATURES
    ensures FailsAs(AnchorStep(o, cert, anchor, t), Tried(o, cert, anchor), !Tried(o, cert, anchor) && AnchorOutranks(o, cert, anchor))
  {
    hide CheckNameConstraints, Signed, CheckSigned, Error.Rank;
    BudgetErrorHasNoRank();
    ConstraintsNotFatal(anchor.nameConstraints, cert, Contents(o, cert));
  }

  lemma {:induction false} SpentAnchors(o: ChainOptions, cert: Cert, anchors: seq<TrustAnchor>, err: Error, t: Tally)
    requires t.signatures >= MAX_SIGNATURES && err != MaximumSignatureChecksExceeded
    ensures FailsAs(TryAnchors(o, cert, anchors, err, t),
                    SomeAnchorTried(o, cert, anchors),
                    !SomeAnchorTried(o, cert, anchors) && (err.Rank() > 0 || SomeAnchorOutranks(o, cert, anchors)))
  {
    hide AnchorStep, Tried, AnchorOutranks, Error.Rank, Error.MostSpecific;
    BudgetErrorHasNoRank();
    if anchors != [] {
      assert forall anchor :: anchor in anchors <==> anchor == anchors[0] || anchor in anchors[1..];
      var first := AnchorStep(o, cert, anchors[0], t);
      SpentAnchor(o, cert, anchors[0], t);
      if first.0.error != MaximumSignatureChecksExceeded {
        BestOfTwo(err, first.0.error);
        SpentAnchors(o, cert, anchors[1..], err.MostSpecific(first.0.error), first.1);
      }
    }
  }

  lemma SpentUnfolds(o: ChainOptions, cert: Cert, subCaCount: nat)
    requires (!cert.UsedAsCa() ==> subCaCount == 0) && MayClimb(o, cert, subCaCount)
    ensures
      var reports := SomeEntryReports(o, cert, subCaCount, o.intermediates);
      var outranks := SomeEntryOutranks(o, cert, subCaCount, o.intermediates);
      var tried := SomeAnchorTried(o, cert, o.trustAnchors);
      && (Reports(o, cert, subCaCount) <==> reports || (tried && !outranks))
      && (Outranks(o, cert, subCaCount) <==> !reports && (outranks || (!tried && SomeAnchorOutranks(o, cert, o.trustAnchors))))
  {
    hide CheckIssuerIndependentProperties, SomeAnchorTried, SomeAnchorOutranks, SomeEntryReports, SomeEntryOutranks, Error.Rank;
  }

  lemma SpentAtOnce(o: ChainOptions, cert: Cert, subCaCount: nat, t: Tally)
    requires (!cert.UsedAsCa() ==> subCaCount == 0) && !MayClimb(o, cert, subCaCount)
    requires t.signatures >= MAX_SIGNATURES
    ensures FailsAs(Search(o, cert, subCaCount, t), Reports(o, cert, subCaCount), Outranks(o, cert, subCaCount))
  {
    hide CheckIssuerIndependentProperties, Error.Rank;
    PropertiesNotFatal(cert.own, o.time, cert.UsedAsCa(), subCaCount, o.eku);
    UnknownIssuerHasNoRank();
  }

  /** With a spent budget the search fails with the budget error exactly when it `Reports`. */
  lemma {:induction false} SpentSearch(o: ChainOptions, cert: Cert, subCaCount: nat, t: Tally)
    requires !cert.UsedAsCa() ==> subCaCount == 0
    requires t.signatures >= MAX_SIGNATURES
    ensures FailsAs(Search(o, cert, subCaCount, t), Reports(o, cert, subCaCount), Outranks(o, cert, subCaCount))
    decreases Height(cert, subCaCount), 1, 0
  {
    hide Search, TryAnchors, TryPool, UpTo, Accepts, Raised, Reports, Outranks, CheckIssuerIndependentProperties;
    hide SomeAnchorTried, SomeAnchorOutranks, SomeEntryReports, SomeEntryOutranks, Error.Rank;
    if MayClimb(o, cert, subCaCount) {
      UnknownIssuerHasNoRank();
      SearchUnfolds(o, cert, subCaCount, t);
      SpentUnfolds(o, cert, subCaCount);
      var t0 := t.(calls := t.calls + 1);
      SpentAnchors(o, cert, o.trustAnchors, UnknownIssuer, t0);
      var anchors := TryAnchors(o, cert, o.trustAnchors, UnknownIssuer, t0);
      SpentPool(o, cert, subCaCount, o.intermediates, anchors.0.error, anchors.1);
    } else {
      SpentAtOnce(o, cert, subCaCount, t);
    }
  }

  lemma UnknownIssuerHasNoRank()
    ensures UnknownIssuer.Rank() == 0
  {
  }

  lemma {:induction false} SpentEntry(o: ChainOptions, cert: Cert, subCaCount: nat, entry: PoolEntry, t: Tally)
    requires (!cert.UsedAsCa() ==> subCaCount == 0) && !TooDeep(cert, subCaCount)
    requires t.signatures >= MAX_SIGNATURES
    ensures FailsAs(EntryStep(o, cert, subCaCount, entry, t), EntryReports(o, cert, subCaCount, entry), EntryOutranks(o, cert, subCaCount, entry))
    decreases Height(cert, subCaCount), 0, 0
  {
    hide ClimbStep, Search, Reports, Outranks, Error.Rank;
    ClimbNotFatal(o, cert, entry);
    var step := ClimbStep(o, cert, entry);
    if step.Ok? {
      SpentSearch(o, Cert(step.value, Ca(cert)), NextSubCaCount(cert, subCaCount), t);
    }
  }

  lemma {:induction false} SpentPool(o: ChainOptions, cert: Cert, subCaCount: nat, pool: seq<PoolEntry>, err: Error, t: Tally)
    requires (!cert.UsedAsCa() ==> subCaCount == 0) && !TooDeep(cert, subCaCount)
    requires t.signatures >= MAX_SIGNATURES
    ensures
      var reports, outranks := SomeEntryReports(o, cert, subCaCount, pool), SomeEntryOutranks(o, cert, subCaCount, pool);
      FailsAs(TryPool(o, cert, subCaCount, pool, err, t),
              reports || (err == MaximumSignatureChecksExceeded && !outranks),
              !reports && (err.Rank() > 0 || outranks))
    decreases Height(cert, subCaCount), 0, |pool|
  {
    hide EntryStep, EntryReports, EntryOutranks, Error.Rank, Error.MostSpecific;
    BudgetErrorHasNoRank();
    if pool != [] {
      assert forall entry :: entry in pool <==> entry == pool[0] || entry in pool[1..];
      var first := EntryStep(o, cert, subCaCount, pool[0], t);
      SpentEntry(o, cert, subCaCount, pool[0], t);
      if first.0.error != MaximumSignatureChecksExceeded {
        BestOfTwo(err, first.0.error);
        SpentPool(o, cert, subCaCount, pool[1..], err.MostSpecific(first.0.error), first.1);
      }
    }
  }

  // ----- a budget that is spent on the way

  /** The search ends with the budget error when it begins with `left` signatures to spend. Either its
      anchors take more than that, and no intermediate replaces the error; or the intermediates do. */
  ghost predicate ReportsFrom(o: ChainOptions, cert: Cert, subCaCount: nat, left: nat)
    requires !cert.UsedAsCa() ==> subCaCount == 0
    decreases Height(cert, subCaCount), 1, 0
  {
    && MayClimb(o, cert, subCaCount)
    && var cost := AnchorsUpTo(o, cert, o.trustAnchors);
       if left < cost then
         SomeEntryReports(o, cert, subCaCount, o.intermediates) || !SomeEntryOutranks(o, cert, subCaCount, o.intermediates)
       else
         !SomeAnchorAccepts(o, cert, o.trustAnchors) && PoolReportsFrom(o, cert, subCaCount, o.intermediates, left - cost)
  }

  ghost predicate EntryReportsFrom(o: ChainOptions, cert: Cert, subCaCount: nat, entry: PoolEntry, left: nat)
    requires (!cert.UsedAsCa() ==> subCaCount == 0) && !TooDeep(cert, subCaCount)
    decreases Height(cert, subCaCount), 0, 0
  {
    var step := ClimbStep(o, cert, entry);
    step.Ok? && ReportsFrom(o, Cert(step.value, Ca(cert)), NextSubCaCount(cert, subCaCount), left)
  }

  /** The entry that takes more than is left reports it, or one behind it does. */
  ghost predicate PoolReportsFrom(o: ChainOptions, cert: Cert, subCaCount: nat, pool: seq<PoolEntry>, left: nat)
    requires (!cert.UsedAsCa() ==> subCaCount == 0) && !TooDeep(cert, subCaCount)
    decreases Height(cert, subCaCount), 0, |pool|
  {
    && pool != []
    && var cost := EntryUpTo(o, cert, subCaCount, pool[0]);
       if left < cost then
         EntryReportsFrom(o, cert, subCaCount, pool[0], left) || SomeEntryReports(o, cert, subCaCount, pool[1..])
       else
         !EntryAccepts(o, cert, subCaCount, pool[0]) && PoolReportsFrom(o, cert, subCaCount, pool[1..], left - cost)
  }

  /** Whichever anchor exceeds the budget ends the loop with the budget error. */
  lemma {:induction false} AnchorsExceed(o: ChainOptions, cert: Cert, anchors: seq<TrustAnchor>, err: Error, t: Tally)
    requires t.signatures <= MAX_SIGNATURES && !Within(t, AnchorsUpTo(o, cert, anchors))
    ensures TryAnchors(o, cert, anchors, err, t).0 == Err(MaximumSignatureChecksExceeded)
  {
    hide CheckNameConstraints, CheckSignatures, Signed, SignedCost, Error.MostSpecific;
    if anchors != [] {
      var first := AnchorStep(o, cert, anchors[0], t);
      SignaturesWithinBudget(o, cert, anchors[0].spki, None, t);
      AnchorNotFatal(o, cert, anchors[0]);
      if Within(t, AnchorCost(o, cert, anchors[0])) {
        AnchorsExceed(o, cert, anchors[1..], err.MostSpecific(first.0.error), first.1);
      }
    }
  }

  lemma ReportedUnfolds(o: ChainOptions, cert: Cert, subCaCount: nat, left: nat)
    requires (!cert.UsedAsCa() ==> subCaCount == 0) && MayClimb(o, cert, subCaCount)
    ensures
      var cost := AnchorsUpTo(o, cert, o.trustAnchors);
      ReportsFrom(o, cert, subCaCount, left)
      == if left < cost then
           SomeEntryReports(o, cert, subCaCount, o.intermediates) || !SomeEntryOutranks(o, cert, subCaCount, o.intermediates)
         else
           !SomeAnchorAccepts(o, cert, o.trustAnchors) && PoolReportsFrom(o, cert, subCaCount, o.intermediates, left - cost)
  {
    hide CheckIssuerIndependentProperties, SomeEntryReports, SomeEntryOutranks, SomeAnchorAccepts, AnchorsUpTo, PoolReportsFrom;
  }

  lemma ReportedAtOnce(o: ChainOptions, cert: Cert, subCaCount: nat, t: Tally, left: nat)
    requires (!cert.UsedAsCa() ==> subCaCount == 0) && !MayClimb(o, cert, subCaCount)
    ensures Search(o, cert, subCaCount, t).0 != Err(MaximumSignatureChecksExceeded)
    ensures !ReportsFrom(o, cert, subCaCount, left)
  {
    hide CheckIssuerIndependentProperties, Error.Rank;
    PropertiesNotFatal(cert.own, o.time, cert.UsedAsCa(), subCaCount, o.eku);
  }

  /** Which runs end with the budget error, for every counter within the budget. */
  lemma {:induction false} ReportedExactly(o: ChainOptions, cert: Cert, subCaCount: nat, t: Tally)
    requires !cert.UsedAsCa() ==> subCaCount == 0
    requires t.signatures <= MAX_SIGNATURES
    ensures Search(o, cert, subCaCount, t).0 == Err(MaximumSignatureChecksExceeded)
       <==> ReportsFrom(o, cert, subCaCount, MAX_SIGNATURES - t.signatures)
    decreases Height(cert, subCaCount), 1, 0
  {
    hide Search, TryAnchors, TryPool, UpTo, Accepts, Raised, ReportsFrom, PoolReportsFrom, CheckIssuerIndependentProperties;
    hide SomeEntryReports, SomeEntryOutranks, SomeAnchorAccepts, AnchorsUpTo, AnchorErrors, Union, MostSpecificOf, Error.Rank;
    if MayClimb(o, cert, subCaCount) {
      SearchUnfolds(o, cert, subCaCount, t);
      ReportedUnfolds(o, cert, subCaCount, MAX_SIGNATURES - t.signatures);
      var t0 := t.(calls := t.calls + 1);
      var anchors := TryAnchors(o, cert, o.trustAnchors, UnknownIssuer, t0);
      AnchorsWithinBudget(o, cert, o.trustAnchors, UnknownIssuer, t0);
      if !Within(t0, AnchorsUpTo(o, cert, o.trustAnchors)) {
        AnchorsExceed(o, cert, o.trustAnchors, UnknownIssuer, t0);
        SpentPool(o, cert, subCaCount, o.intermediates, anchors.0.error, anchors.1);
      } else if anchors.0.Err? {
        PoolReportedExactly(o, cert, subCaCount, o.intermediates, anchors.0.error, anchors.1);
      }
    } else {
      ReportedAtOnce(o, cert, subCaCount, t, MAX_SIGNATURES - t.signatures);
    }
  }

  lemma {:induction false} EntryReportedExactly(o: ChainOptions, cert: Cert, subCaCount: nat, entry: PoolEntry, t: Tally)
    requires (!cert.UsedAsCa() ==> subCaCount == 0) && !TooDeep(cert, subCaCount)
    requires t.signatures <= MAX_SIGNATURES
    ensures EntryStep(o, cert, subCaCount, entry, t).0 == Err(MaximumSignatureChecksExceeded)
       <==> EntryReportsFrom(o, cert, subCaCount, entry, MAX_SIGNATURES - t.signatures)
    decreases Height(cert, subCaCount), 0, 0
  {
    hide ClimbStep, Search, ReportsFrom;
    ClimbNotFatal(o, cert, entry);
    var step := ClimbStep(o, cert, entry);
    if step.Ok? {
      ReportedExactly(o, Cert(step.value, Ca(cert)), NextSubCaCount(cert, subCaCount), t);
    }
  }

  lemma PoolReportedUnfolds(o: ChainOptions, cert: Cert, subCaCount: nat, pool: seq<PoolEntry>, left: nat)
    requires (!cert.UsedAsCa() ==> subCaCount == 0) && !TooDeep(cert, subCaCount)
    ensures
      PoolReportsFrom(o, cert, subCaCount, pool, left)
      == if pool == [] then false
         else
           var cost := EntryUpTo(o, cert, subCaCount, pool[0]);
           if left < cost then
             EntryReportsFrom(o, cert, subCaCount, pool[0], left) || SomeEntryReports(o, cert, subCaCount, pool[1..])
           else
             !EntryAccepts(o, cert, subCaCount, pool[0]) && PoolReportsFrom(o, cert, subCaCount, pool[1..], left - cost)
  {
    hide EntryReportsFrom, SomeEntryReports, EntryAccepts, EntryUpTo;
  }

  lemma {:induction false} PoolReportedExactly(o: ChainOptions, cert: Cert, subCaCount: nat, pool: seq<PoolEntry>, err: Error, t: Tally)
    requires (!cert.UsedAsCa() ==> subCaCount == 0) && !TooDeep(cert, subCaCount)
    requires t.signatures <= MAX_SIGNATURES && err != MaximumSignatureChecksExceeded
    ensures TryPool(o, cert, subCaCount, pool, err, t).0 == Err(MaximumSignatureChecksExceeded)
       <==> PoolReportsFrom(o, cert, subCaCount, pool, MAX_SIGNATURES - t.signatures)
    decreases Height(cert, subCaCount), 0, |pool|
  {
    hide EntryStep, PoolReportsFrom, EntryReportsFrom, SomeEntryReports, SomeEntryOutranks, EntryAccepts, EntryUpTo, EntryErrors;
    hide PoolUpTo, SomeEntryAccepts, Union, MostSpecificOf, Error.Rank, Error.MostSpecific;
    PoolReportedUnfolds(o, cert, subCaCount, pool, MAX_SIGNATURES - t.signatures);
    if pool != [] {
      var first := EntryStep(o, cert, subCaCount, pool[0], t);
      EntryReportedExactly(o, cert, subCaCount, pool[0], t);
      EntryWithinBudget(o, cert, subCaCount, pool[0], t);
      if first.0.Err? && NotFatal(first.0) {
        BestOfTwo(err, first.0.error);
        var next := err.MostSpecific(first.0.error);
        if Within(t, EntryUpTo(o, cert, subCaCount, pool[0])) {
          PoolReportedExactly(o, cert, subCaCount, pool[1..], next, first.1);
        } else {
          SpentPool(o, cert, subCaCount, pool[1..], next, first.1);
        }
      }
    }
  }

  /** Both descriptions agree where both apply, that is with nothing left. */
  lemma NothingLeft(o: ChainOptions, cert: Cert, subCaCount: nat)
    requires !cert.UsedAsCa() ==> subCaCount == 0
    ensures ReportsFrom(o, cert, subCaCount, 0) <==> Reports(o, cert, subCaCount)
  {
    hide Search, ReportsFrom, Reports, Outranks;
    var t := Tally(MAX_SIGNATURES, 0, 0, 0);
    ReportedExactly(o, cert, subCaCount, t);
    SpentSearch(o, cert, subCaCount, t);
  }

  // ----- an input whose budget error is lost

  lemma {:induction false} EveryAnchorFails(o: ChainOptions, cert: Cert, anchors: seq<TrustAnchor>, err: Error, t: Tally)
    requires t.signatures <= MAX_SIGNATURES && |anchors| == MAX_SIGNATURES + 1 - t.signatures
    requires forall anchor :: anchor in anchors ==> anchor.subject == cert.own.issuer && anchor.nameConstraints.None?
    requires forall key, data :: o.verify(key, data).Err?
    ensures
      var r := TryAnchors(o, cert, anchors, err, t);
      r.0 == Err(MaximumSignatureChecksExceeded) && r.1.signatures == MAX_SIGNATURES + 1
  {
    hide CheckSigned, Error.MostSpecific;
    assert anchors[0] in anchors && forall anchor :: anchor in anchors[1..] ==> anchor in anchors;
    var first := AnchorStep(o, cert, anchors[0], t);
    if t.signatures < MAX_SIGNATURES {
      assert o.verify(anchors[0].spki, cert.own.signedData).Err?;
      EveryAnchorFails(o, cert, anchors[1..], err.MostSpecific(first.0.error), first.1);
    }
  }

  /** 101 anchors that are all tried in vain spend the budget, but one unreadable intermediate behind
      them makes the run end with `BadDer`. */
  lemma BudgetErrorIsReplaced(o: ChainOptions, endEntity: Parsed)
    requires |o.trustAnchors| == MAX_SIGNATURES + 1 && o.intermediates == [Err(BadDer)]
    requires forall anchor :: anchor in o.trustAnchors ==> anchor.subject == endEntity.issuer && anchor.nameConstraints.None?
    requires forall key, data :: o.verify(key, data).Err?
    requires CheckIssuerIndependentProperties(endEntity, o.time, false, 0, o.eku).Ok?
    ensures
      var r := Search(o, Cert(endEntity, EndEntity), 0, Tally(0, 0, 0, 0));
      r.0 == Err(BadDer) && r.1.signatures == MAX_SIGNATURES + 1
  {
    hide CheckIssuerIndependentProperties, TryAnchors, CheckNameConstraints;
    var cert, t := Cert(endEntity, EndEntity), Tally(0, 0, 0, 1);
    EveryAnchorFails(o, cert, o.trustAnchors, UnknownIssuer, t);
    var spent := TryAnchors(o, cert, o.trustAnchors, UnknownIssuer, t).1;
    assert TryPool(o, cert, 0, [Err(BadDer)], MaximumSignatureChecksExceeded, spent) == (Err(BadDer), spent);
  }
}
