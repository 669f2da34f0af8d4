/** What a search would do without the signature budget, and that it does just that as long as the
    budget lasts (src/verify_cert.rs:136-294, 659-676). */
module PathOutcome {
  import opened Basics
  import opened Certificates
  import opened NameConstraints
  import opened PathSearch
  import opened PathErrors

  function Sum<T>(s: seq<T>, f: T -> nat): nat {
    if s == [] then 0 else f(s[0]) + Sum(s[1..], f)
  }

  function Union<T>(s: seq<T>, f: T -> set<Error>): set<Error> {
    if s == [] then {} else f(s[0]) + Union(s[1..], f)
  }

  // ----- runs

  /** The counter can take the cost. */
  predicate Within(t: Tally, cost: nat) {
    t.signatures + cost <= 100
  }

  /** One of the errors, and no other outranks it. */
  predicate MostSpecificOf(e: Error, errors: set<Error>) {
    e in errors && forall other :: other in errors ==> other.Rank() <= e.Rank()
  }

  lemma MostSpecificStep(e: Error, first: Error, next: Error, here: set<Error>, rest: set<Error>)
    requires MostSpecificOf(e, {first.MostSpecific(next)} + rest) && MostSpecificOf(next, here)
    ensures MostSpecificOf(e, {first} + (here + rest))
  {
    hide Error.Rank;
    var best := first.MostSpecific(next);
    assert best in {best} + rest;
  }

  /** What a run of the search or of one of its loops gives, when without a budget it checks `cost`
      signatures and accepts or raises `errors`: the same if the counter can take the cost, and
      otherwise a failure that reports the spent budget or one of these errors. */
  ghost predicate RunsAs(r: (Outcome, Tally), t: Tally, cost: nat, accepts: bool, errors: set<Error>) {
    if Within(t, cost) then
      && r.1.signatures == t.signatures + cost
      && (r.0.Ok? <==> accepts)
      && (r.0.Err? ==> NotFatal(r.0) && MostSpecificOf(r.0.error, errors))
    else
      && r.0.Err? && r.1.signatures > MAX_SIGNATURES
      && (r.0.error in errors || r.0.error == MaximumSignatureChecksExceeded)
  }

  /** One turn of a loop and then the turns that are left, with an error to fall back on. */
  lemma RunsOn(first: (Outcome, Tally), rest: (Outcome, Tally), t: Tally, err: Error,
               cost: nat, accepts: bool, errors: set<Error>, costs: nat, acceptsLater: bool, others: set<Error>)
    requires RunsAs(first, t, cost, accepts, errors)
    requires first.0.Err? && NotFatal(first.0) ==>
               RunsAs(rest, first.1, costs, acceptsLater, {err.MostSpecific(first.0.error)} + others)
    ensures RunsAs(if first.0.Ok? || !NotFatal(first.0) then first else rest,
                   t, cost + (if accepts then 0 else costs), accepts || acceptsLater, {err} + (errors + others))
  {
    hide Error.Rank;
    if first.0.Err? && NotFatal(first.0) && rest.0.Err? && Within(t, cost + costs) {
      MostSpecificStep(rest.0.error, err, first.0.error, errors, others);
    }
  }

  /** One loop and then the other, which falls back on the error of the first. */
  lemma RunsThen(first: (Outcome, Tally), rest: (Outcome, Tally), t: Tally,
                 cost: nat, accepts: bool, errors: set<Error>, costs: nat, acceptsLater: bool, others: set<Error>)
    requires RunsAs(first, t, cost, accepts, errors)
    requires first.0.Err? ==> RunsAs(rest, first.1, costs, acceptsLater, {first.0.error} + others)
    ensures RunsAs(if first.0.Ok? then first else rest,
                   t, cost + (if accepts then 0 else costs), accepts || acceptsLater, errors + others)
  {
    hide Error.Rank;
    if first.0.Err? && rest.0.Err? && Within(t, cost + costs) {
      assert first.0.error in {first.0.error} + others;
    }
  }

  // ----- one anchor

  /** Every signature down the chain verifies and nothing is revoked. */
  function Signed(o: ChainOptions, cert: Cert, spki: Bytes, keyUsage: Option<Bytes>): Outcome {
    var _ :- CheckSigned(o, cert, spki, keyUsage);
    match cert.eeOrCa
    case EndEntity => DONE
    case Ca(child) => Signed(o, child, cert.own.spki, cert.own.keyUsage)
  }

  /** How many signatures that takes, up to the first failure. */
  function SignedCost(o: ChainOptions, cert: Cert, spki: Bytes, keyUsage: Option<Bytes>): nat {
    if CheckSigned(o, cert, spki, keyUsage).Err? || cert.eeOrCa.EndEntity? then 1
    else 1 + SignedCost(o, cert.eeOrCa.child, cert.own.spki, cert.own.keyUsage)
  }

  lemma {:induction false} SignaturesWithinBudget(o: ChainOptions, cert: Cert, spki: Bytes, keyUsage: Option<Bytes>, t: Tally)
    ensures
      var r := CheckSignatures(o, cert, spki, keyUsage, t);
      var cost := SignedCost(o, cert, spki, keyUsage);
      if Within(t, cost) then r.0 == Signed(o, cert, spki, keyUsage) && r.1.signatures == t.signatures + cost
      else r.0 == Err(MaximumSignatureChecksExceeded) && r.1.signatures > MAX_SIGNATURES
    decreases cert
  {
    hide CheckCrls, CrlToCheck;
    if t.signatures < MAX_SIGNATURES && CheckSigned(o, cert, spki, keyUsage).Ok? && cert.eeOrCa.Ca? {
      SignaturesWithinBudget(o, cert.eeOrCa.child, cert.own.spki, cert.own.keyUsage, CountCrl(o, cert, CountVerify(t)));
    }
  }

  function AnchorOutcome(o: ChainOptions, cert: Cert, anchor: TrustAnchor): Outcome {
    if cert.own.issuer != anchor.subject then Err(UnknownIssuer)
    else
      var _ :- CheckNameConstraints(anchor.nameConstraints, cert, Contents(o, cert));
      Signed(o, cert, anchor.spki, None)
  }

  function AnchorCost(o: ChainOptions, cert: Cert, anchor: TrustAnchor): nat {
    if cert.own.issuer != anchor.subject then 0
    else if CheckNameConstraints(anchor.nameConstraints, cert, Contents(o, cert)).Err? then 0
    else SignedCost(o, cert, anchor.spki, None)
  }

  lemma {:induction false} SignedIsNotFatal(o: ChainOptions, cert: Cert, spki: Bytes, keyUsage: Option<Bytes>)
    ensures NotFatal(Signed(o, cert, spki, keyUsage))
    decreases cert
  {
    SignedNotFatal(o, cert, spki, keyUsage);
    hide CheckSigned;
    if cert.eeOrCa.Ca? {
      SignedIsNotFatal(o, cert.eeOrCa.child, cert.own.spki, cert.own.keyUsage);
    }
  }

  lemma AnchorNotFatal(o: ChainOptions, cert: Cert, anchor: TrustAnchor)
    ensures NotFatal(AnchorOutcome(o, cert, anchor))
  {
    hide CheckNameConstraints, Signed;
    ConstraintsNotFatal(anchor.nameConstraints, cert, Contents(o, cert));
    SignedIsNotFatal(o, cert, anchor.spki, None);
  }

  function AnchorErrors(o: ChainOptions, cert: Cert, anchor: TrustAnchor): set<Error> {
    var r := AnchorOutcome(o, cert, anchor);
    if r.Err? then {r.error} else {}
  }

  lemma AnchorWithinBudget(o: ChainOptions, cert: Cert, anchor: TrustAnchor, t: Tally)
    ensures RunsAs(AnchorStep(o, cert, anchor, t), t, AnchorCost(o, cert, anchor),
                   AnchorOutcome(o, cert, anchor).Ok?, AnchorErrors(o, cert, anchor))
  {
    hide CheckNameConstraints, CheckSignatures, Signed, SignedCost;
    SignaturesWithinBudget(o, cert, anchor.spki, None, t);
    AnchorNotFatal(o, cert, anchor);
  }

  // ----- the loop over the anchors

  ghost predicate SomeAnchorAccepts(o: ChainOptions, cert: Cert, anchors: seq<TrustAnchor>) {
    exists anchor :: anchor in anchors && AnchorOutcome(o, cert, anchor).Ok?
  }

  /** Signatures checked by the loop, up to and with the first anchor that accepts. */
  function AnchorsUpTo(o: ChainOptions, cert: Cert, anchors: seq<TrustAnchor>): nat {
    if anchors == [] then 0
    else
      AnchorCost(o, cert, anchors[0])
      + if AnchorOutcome(o, cert, anchors[0]).Ok? then 0 else AnchorsUpTo(o, cert, anchors[1..])
  }

  lemma {:induction false} AnchorsUpToAll(o: ChainOptions, cert: Cert, anchors: seq<TrustAnchor>)
    requires !SomeAnchorAccepts(o, cert, anchors)
    ensures AnchorsUpTo(o, cert, anchors) == Sum(anchors, anchor => AnchorCost(o, cert, anchor))
  {
    hide AnchorOutcome, AnchorCost;
    if anchors != [] {
      assert anchors[0] in anchors && forall anchor :: anchor in anchors[1..] ==> anchor in anchors;
      AnchorsUpToAll(o, cert, anchors[1..]);
    }
  }

  lemma {:induction false} AnchorsWithinBudget(o: ChainOptions, cert: Cert, anchors: seq<TrustAnchor>, err: Error, t: Tally)
    requires err != MaximumSignatureChecksExceeded
    ensures RunsAs(TryAnchors(o, cert, anchors, err, t), t,
                   AnchorsUpTo(o, cert, anchors),
                   SomeAnchorAccepts(o, cert, anchors),
                   {err} + Union(anchors, anchor => AnchorErrors(o, cert, anchor)))
  {
    if anchors != [] {
      var first := AnchorStep(o, cert, anchors[0], t);
      AnchorWithinBudget(o, cert, anchors[0], t);
      hide AnchorStep, AnchorOutcome, AnchorCost, AnchorErrors, Error.MostSpecific, Error.Rank, RunsAs;
      assert SomeAnchorAccepts(o, cert, anchors) <==>
             AnchorOutcome(o, cert, anchors[0]).Ok? || SomeAnchorAccepts(o, cert, anchors[1..]);
      var next := if first.0.Err? then err.MostSpecific(first.0.error) else err;
      if first.0.Err? && NotFatal(first.0) {
        AnchorsWithinBudget(o, cert, anchors[1..], next, first.1);
      }
      RunsOn(first, TryAnchors(o, cert, anchors[1..], next, first.1), t, err,
             AnchorCost(o, cert, anchors[0]), AnchorOutcome(o, cert, anchors[0]).Ok?, AnchorErrors(o, cert, anchors[0]),
             AnchorsUpTo(o, cert, anchors[1..]),
             SomeAnchorAccepts(o, cert, anchors[1..]),
             Union(anchors[1..], anchor => AnchorErrors(o, cert, anchor)));
    }
  }

  // ----- the whole search

  /** The certificate may be followed by the certificates and anchors above it. */
  predicate MayClimb(o: ChainOptions, cert: Cert, subCaCount: nat) {
    CheckIssuerIndependentProperties(cert.own, o.time, cert.UsedAsCa(), subCaCount, o.eku).Ok? && !TooDeep(cert, subCaCount)
  }

  /** Signatures checked by a search that finds nothing. */
  function Cost(o: ChainOptions, cert: Cert, subCaCount: nat): nat
    requires !cert.UsedAsCa() ==> subCaCount == 0
    decreases Height(cert, subCaCount), 1
  {
    if !MayClimb(o, cert, subCaCount) then 0
    else
      Sum(o.trustAnchors, anchor => AnchorCost(o, cert, anchor))
      + Sum(o.intermediates, entry => EntryCost(o, cert, subCaCount, entry))
  }

  function EntryCost(o: ChainOptions, cert: Cert, subCaCount: nat, entry: PoolEntry): nat
    requires (!cert.UsedAsCa() ==> subCaCount == 0) && !TooDeep(cert, subCaCount)
    decreases Height(cert, subCaCount), 0
  {
    var step := ClimbStep(o, cert, entry);
    if step.Err? then 0 else Cost(o, Cert(step.value, Ca(cert)), NextSubCaCount(cert, subCaCount))
  }

  /** Every error raised anywhere in the tree of the search, and the `UnknownIssuer` it begins with. */
  function Raised(o: ChainOptions, cert: Cert, subCaCount: nat): set<Error>
    requires !cert.UsedAsCa() ==> subCaCount == 0
    decreases Height(cert, subCaCount), 1
  {
    var own := CheckIssuerIndependentProperties(cert.own, o.time, cert.UsedAsCa(), subCaCount, o.eku);
    if own.Err? then {own.error}
    else if TooDeep(cert, subCaCount) then {UnknownIssuer}
    else
      {UnknownIssuer} + Union(o.trustAnchors, anchor => AnchorErrors(o, cert, anchor))
      + Union(o.intermediates, entry => EntryErrors(o, cert, subCaCount, entry))
  }

  function EntryErrors(o: ChainOptions, cert: Cert, subCaCount: nat, entry: PoolEntry): set<Error>
    requires (!cert.UsedAsCa() ==> subCaCount == 0) && !TooDeep(cert, subCaCount)
    decreases Height(cert, subCaCount), 0
  {
    var step := ClimbStep(o, cert, entry);
    if step.Err? then {step.error} else Raised(o, Cert(step.value, Ca(cert)), NextSubCaCount(cert, subCaCount))
  }

  /** Some way up from here ends at an anchor. */
  ghost predicate Accepts(o: ChainOptions, cert: Cert, subCaCount: nat)
    requires !cert.UsedAsCa() ==> subCaCount == 0
    decreases Height(cert, subCaCount), 1
  {
    && MayClimb(o, cert, subCaCount)
    && (SomeAnchorAccepts(o, cert, o.trustAnchors) || SomeEntryAccepts(o, cert, subCaCount, o.intermediates))
  }

  ghost predicate SomeEntryAccepts(o: ChainOptions, cert: Cert, subCaCount: nat, pool: seq<PoolEntry>)
    requires (!cert.UsedAsCa() ==> subCaCount == 0) && !TooDeep(cert, subCaCount)
    decreases Height(cert, subCaCount), 0, 1
  {
    exists entry :: entry in pool && EntryAccepts(o, cert, subCaCount, entry)
  }

  ghost predicate EntryAccepts(o: ChainOptions, cert: Cert, subCaCount: nat, entry: PoolEntry)
    requires (!cert.UsedAsCa() ==> subCaCount == 0) && !TooDeep(cert, subCaCount)
    decreases Height(cert, subCaCount), 0, 0
  {
    var step := ClimbStep(o, cert, entry);
    step.Ok? && Accepts(o, Cert(step.value, Ca(cert)), NextSubCaCount(cert, subCaCount))
  }

  /** Signatures checked by the search without a budget, up to and with the first anchor that accepts. */
  ghost function UpTo(o: ChainOptions, cert: Cert, subCaCount: nat): nat
    requires !cert.UsedAsCa() ==> subCaCount == 0
    decreases Height(cert, subCaCount), 1, 0
  {
    if !MayClimb(o, cert, subCaCount) then 0
    else
      AnchorsUpTo(o, cert, o.trustAnchors)
      + if SomeAnchorAccepts(o, cert, o.trustAnchors) then 0 else PoolUpTo(o, cert, subCaCount, o.intermediates)
  }

  ghost function EntryUpTo(o: ChainOptions, cert: Cert, subCaCount: nat, entry: PoolEntry): nat
    requires (!cert.UsedAsCa() ==> subCaCount == 0) && !TooDeep(cert, subCaCount)
    decreases Height(cert, subCaCount), 0, 0
  {
    var step := ClimbStep(o, cert, entry);
    if step.Err? then 0 else UpTo(o, Cert(step.value, Ca(cert)), NextSubCaCount(cert, subCaCount))
  }

  ghost function PoolUpTo(o: ChainOptions, cert: Cert, subCaCount: nat, pool: seq<PoolEntry>): nat
    requires (!cert.UsedAsCa() ==> subCaCount == 0) && !TooDeep(cert, subCaCount)
    decreases Height(cert, subCaCount), 0, |pool|
  {
    if pool == [] then 0
    else
      EntryUpTo(o, cert, subCaCount, pool[0])
      + if EntryAccepts(o, cert, subCaCount, pool[0]) then 0 else PoolUpTo(o, cert, subCaCount, pool[1..])
  }

  /** A search that accepts nothing checks all signatures of its tree, in whatever order. */
  lemma {:induction false} FailureCostsAll(o: ChainOptions, cert: Cert, subCaCount: nat)
    requires (!cert.UsedAsCa() ==> subCaCount == 0) && !Accepts(o, cert, subCaCount)
    ensures UpTo(o, cert, subCaCount) == Cost(o, cert, subCaCount)
    decreases Height(cert, subCaCount), 1, 0
  {
    hide CheckIssuerIndependentProperties, AnchorsUpTo, AnchorCost, EntryCost, EntryAccepts, PoolUpTo, SomeAnchorAccepts;
    if MayClimb(o, cert, subCaCount) {
      AnchorsUpToAll(o, cert, o.trustAnchors);
      assert !SomeEntryAccepts(o, cert, subCaCount, o.intermediates);
      PoolUpToAll(o, cert, subCaCount, o.intermediates);
    }
  }

  lemma {:induction false} PoolUpToAll(o: ChainOptions, cert: Cert, subCaCount: nat, pool: seq<PoolEntry>)
    requires (!cert.UsedAsCa() ==> subCaCount == 0) && !TooDeep(cert, subCaCount)
    requires !SomeEntryAccepts(o, cert, subCaCount, pool)
    ensures PoolUpTo(o, cert, subCaCount, pool) == Sum(pool, entry => EntryCost(o, cert, subCaCount, entry))
    decreases Height(cert, subCaCount), 0, |pool|
  {
    hide ClimbStep, Accepts, Cost, UpTo;
    if pool != [] {
      assert pool[0] in pool && forall entry :: entry in pool[1..] ==> entry in pool;
      assert !EntryAccepts(o, cert, subCaCount, pool[0]);
      var step := ClimbStep(o, cert, pool[0]);
      if step.Ok? {
        FailureCostsAll(o, Cert(step.value, Ca(cert)), NextSubCaCount(cert, subCaCount));
      }
      PoolUpToAll(o, cert, subCaCount, pool[1..]);
    }
  }

  lemma ClimbNotFatal(o: ChainOptions, cert: Cert, entry: PoolEntry)
    ensures NotFatal(ClimbStep(o, cert, entry))
  {
    hide CheckNameConstraints;
    if entry.Ok? {
      ConstraintsNotFatal(entry.value.nameConstraints, cert, Contents(o, cert));
    }
  }

  /** A search that may climb is the loop over the anchors and then the one over the intermediates. */
  lemma SearchUnfolds(o: ChainOptions, cert: Cert, subCaCount: nat, t: Tally)
    requires (!cert.UsedAsCa() ==> subCaCount == 0) && MayClimb(o, cert, subCaCount)
    ensures
      var a := TryAnchors(o, cert, o.trustAnchors, UnknownIssuer, t.(calls := t.calls + 1));
      Search(o, cert, subCaCount, t)
      == if a.0.Ok? then a else TryPool(o, cert, subCaCount, o.intermediates, a.0.error, a.1)
    ensures UpTo(o, cert, subCaCount)
         == AnchorsUpTo(o, cert, o.trustAnchors)
            + if SomeAnchorAccepts(o, cert, o.trustAnchors) then 0 else PoolUpTo(o, cert, subCaCount, o.intermediates)
    ensures Accepts(o, cert, subCaCount) <==>
            SomeAnchorAccepts(o, cert, o.trustAnchors) || SomeEntryAccepts(o, cert, subCaCount, o.intermediates)
    ensures Raised(o, cert, subCaCount)
         == {UnknownIssuer} + Union(o.trustAnchors, anchor => AnchorErrors(o, cert, anchor))
            + Union(o.intermediates, entry => EntryErrors(o, cert, subCaCount, entry))
  {
    hide CheckIssuerIndependentProperties, AnchorsUpTo, SomeAnchorAccepts, SomeEntryAccepts, PoolUpTo, AnchorErrors, EntryErrors, TryAnchors, TryPool, Union;
  }

  /** One turn of the loop over the intermediates. */
  lemma PoolUnfolds(o: ChainOptions, cert: Cert, subCaCount: nat, pool: seq<PoolEntry>, err: Error, t: Tally)
    requires (!cert.UsedAsCa() ==> subCaCount == 0) && !TooDeep(cert, subCaCount) && pool != []
    ensures
      var first := EntryStep(o, cert, subCaCount, pool[0], t);
      TryPool(o, cert, subCaCount, pool, err, t)
      == if first.0.Ok? || !NotFatal(first.0) then first
         else TryPool(o, cert, subCaCount, pool[1..], err.MostSpecific(first.0.error), first.1)
    ensures PoolUpTo(o, cert, subCaCount, pool)
         == EntryUpTo(o, cert, subCaCount, pool[0])
            + if EntryAccepts(o, cert, subCaCount, pool[0]) then 0 else PoolUpTo(o, cert, subCaCount, pool[1..])
    ensures SomeEntryAccepts(o, cert, subCaCount, pool) <==>
            EntryAccepts(o, cert, subCaCount, pool[0]) || SomeEntryAccepts(o, cert, subCaCount, pool[1..])
    ensures Union(pool, entry => EntryErrors(o, cert, subCaCount, entry))
         == EntryErrors(o, cert, subCaCount, pool[0]) + Union(pool[1..], entry => EntryErrors(o, cert, subCaCount, entry))
  {
    hide EntryStep, EntryUpTo, EntryAccepts, EntryErrors, Error.MostSpecific;
    assert forall entry :: entry in pool <==> entry == pool[0] || entry in pool[1..];
  }

  /** A search succeeds exactly when something can be accepted and the counter can take the signatures
      up to and with the first acceptance. A failure within the budget reports the most specific error
      of the tree, and a failure beyond it the spent budget or an error of the tree. */
  lemma {:induction false} SearchWithinBudget(o: ChainOptions, cert: Cert, subCaCount: nat, t: Tally)
    requires !cert.UsedAsCa() ==> subCaCount == 0
    ensures RunsAs(Search(o, cert, subCaCount, t), t, UpTo(o, cert, subCaCount), Accepts(o, cert, subCaCount), Raised(o, cert, subCaCount))
    decreases Height(cert, subCaCount), 1, 0
  {
    hide Search, UpTo, Accepts, Raised, TryAnchors, TryPool, RunsAs, AnchorsUpTo, AnchorErrors, SomeAnchorAccepts;
    hide PoolUpTo, EntryErrors, SomeEntryAccepts, Union, CheckIssuerIndependentProperties, Error.Rank;
    if MayClimb(o, cert, subCaCount) {
      SearchUnfolds(o, cert, subCaCount, t);
      var t0 := t.(calls := t.calls + 1);
      var anchors := TryAnchors(o, cert, o.trustAnchors, UnknownIssuer, t0);
      AnchorsWithinBudget(o, cert, o.trustAnchors, UnknownIssuer, t0);
      var errors := {UnknownIssuer} + Union(o.trustAnchors, anchor => AnchorErrors(o, cert, anchor));
      RunsDespiteCalls(anchors, t, t0, AnchorsUpTo(o, cert, o.trustAnchors), SomeAnchorAccepts(o, cert, o.trustAnchors), errors);
      var err := if anchors.0.Err? then anchors.0.error else UnknownIssuer;
      if anchors.0.Err? {
        FatalMeansSpent(anchors, t, AnchorsUpTo(o, cert, o.trustAnchors), SomeAnchorAccepts(o, cert, o.trustAnchors), errors);
        PoolWithinBudget(o, cert, subCaCount, o.intermediates, err, anchors.1);
      }
      RunsThen(anchors, TryPool(o, cert, subCaCount, o.intermediates, err, anchors.1), t,
               AnchorsUpTo(o, cert, o.trustAnchors), SomeAnchorAccepts(o, cert, o.trustAnchors), errors,
               PoolUpTo(o, cert, subCaCount, o.intermediates), SomeEntryAccepts(o, cert, subCaCount, o.intermediates),
               Union(o.intermediates, entry => EntryErrors(o, cert, subCaCount, entry)));
    } else {
      StopsAtOnce(o, cert, subCaCount, t);
    }
  }

  lemma RunsDespiteCalls(r: (Outcome, Tally), t: Tally, t0: Tally, cost: nat, accepts: bool, errors: set<Error>)
    requires RunsAs(r, t0, cost, accepts, errors) && t0.signatures == t.signatures
    ensures RunsAs(r, t, cost, accepts, errors)
  {
  }

  lemma FatalMeansSpent(r: (Outcome, Tally), t: Tally, cost: nat, accepts: bool, errors: set<Error>)
    requires RunsAs(r, t, cost, accepts, errors)
    ensures r.0.Err? && !NotFatal(r.0) ==> r.1.signatures > MAX_SIGNATURES
  {
    hide MostSpecificOf;
  }

  lemma StopsAtOnce(o: ChainOptions, cert: Cert, subCaCount: nat, t: Tally)
    requires (!cert.UsedAsCa() ==> subCaCount == 0) && !MayClimb(o, cert, subCaCount)
    ensures RunsAs(Search(o, cert, subCaCount, t), t, UpTo(o, cert, subCaCount), Accepts(o, cert, subCaCount), Raised(o, cert, subCaCount))
  {
    hide CheckIssuerIndependentProperties, Error.Rank;
    PropertiesNotFatal(cert.own, o.time, cert.UsedAsCa(), subCaCount, o.eku);
  }

  lemma {:induction false} EntryWithinBudget(o: ChainOptions, cert: Cert, subCaCount: nat, entry: PoolEntry, t: Tally)
    requires (!cert.UsedAsCa() ==> subCaCount == 0) && !TooDeep(cert, subCaCount)
    ensures RunsAs(EntryStep(o, cert, subCaCount, entry, t), t, EntryUpTo(o, cert, subCaCount, entry),
                   EntryAccepts(o, cert, subCaCount, entry), EntryErrors(o, cert, subCaCount, entry))
    decreases Height(cert, subCaCount), 0, 0
  {
    ClimbNotFatal(o, cert, entry);
    hide ClimbStep, Search, UpTo, Accepts, Raised;
    var step := ClimbStep(o, cert, entry);
    if step.Ok? {
      SearchWithinBudget(o, Cert(step.value, Ca(cert)), NextSubCaCount(cert, subCaCount), t);
    }
  }

  lemma {:induction false} PoolWithinBudget(o: ChainOptions, cert: Cert, subCaCount: nat, pool: seq<PoolEntry>, err: Error, t: Tally)
    requires (!cert.UsedAsCa() ==> subCaCount == 0) && !TooDeep(cert, subCaCount)
    requires err == MaximumSignatureChecksExceeded ==> t.signatures > MAX_SIGNATURES
    ensures RunsAs(TryPool(o, cert, subCaCount, pool, err, t), t,
                   PoolUpTo(o, cert, subCaCount, pool),
                   SomeEntryAccepts(o, cert, subCaCount, pool),
                   {err} + Union(pool, entry => EntryErrors(o, cert, subCaCount, entry)))
    decreases Height(cert, subCaCount), 0, |pool|
  {
    hide EntryStep, EntryUpTo, EntryErrors, EntryAccepts, TryPool, PoolUpTo, SomeEntryAccepts, Union, RunsAs, Error.Rank, Error.MostSpecific;
    if pool == [] {
      EmptyPool(o, cert, subCaCount, err, t);
    } else {
      var first := EntryStep(o, cert, subCaCount, pool[0], t);
      PoolUnfolds(o, cert, subCaCount, pool, err, t);
      EntryWithinBudget(o, cert, subCaCount, pool[0], t);
      FatalMeansSpent(first, t, EntryUpTo(o, cert, subCaCount, pool[0]), EntryAccepts(o, cert, subCaCount, pool[0]),
                      EntryErrors(o, cert, subCaCount, pool[0]));
      SpentStaysSpent(first, t, EntryUpTo(o, cert, subCaCount, pool[0]), EntryAccepts(o, cert, subCaCount, pool[0]),
                      EntryErrors(o, cert, subCaCount, pool[0]));
      var next := if first.0.Err? then err.MostSpecific(first.0.error) else err;
      if first.0.Err? && NotFatal(first.0) {
        FatalStaysFirst(err, first.0.error);
        PoolWithinBudget(o, cert, subCaCount, pool[1..], next, first.1);
      }
      RunsOn(first, TryPool(o, cert, subCaCount, pool[1..], next, first.1), t, err,
             EntryUpTo(o, cert, subCaCount, pool[0]), EntryAccepts(o, cert, subCaCount, pool[0]), EntryErrors(o, cert, subCaCount, pool[0]),
             PoolUpTo(o, cert, subCaCount, pool[1..]), SomeEntryAccepts(o, cert, subCaCount, pool[1..]),
             Union(pool[1..], entry => EntryErrors(o, cert, subCaCount, entry)));
    }
  }

  lemma EmptyPool(o: ChainOptions, cert: Cert, subCaCount: nat, err: Error, t: Tally)
    requires (!cert.UsedAsCa() ==> subCaCount == 0) && !TooDeep(cert, subCaCount)
    requires err == MaximumSignatureChecksExceeded ==> t.signatures > MAX_SIGNATURES
    ensures RunsAs(TryPool(o, cert, subCaCount, [], err, t), t, PoolUpTo(o, cert, subCaCount, []), SomeEntryAccepts(o, cert, subCaCount, []),
                   {err} + Union([], entry => EntryErrors(o, cert, subCaCount, entry)))
  {
    hide EntryErrors, EntryAccepts, EntryUpTo, Error.Rank;
  }

  lemma SpentStaysSpent(r: (Outcome, Tally), t: Tally, cost: nat, accepts: bool, errors: set<Error>)
    requires RunsAs(r, t, cost, accepts, errors)
    ensures t.signatures > MAX_SIGNATURES ==> r.1.signatures > MAX_SIGNATURES
  {
    hide MostSpecificOf;
  }

  lemma FatalStaysFirst(err: Error, next: Error)
    requires next != MaximumSignatureChecksExceeded
    ensures err.MostSpecific(next) == MaximumSignatureChecksExceeded ==> err == MaximumSignatureChecksExceeded
  {
    hide Error.Rank;
  }
}
