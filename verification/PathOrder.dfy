/** The order of anchors and intermediates does not matter to a run that fails within its budget
    (src/verify_cert.rs:177-249, src/error.rs:185-247). */
module PathOrder {
  import opened Basics
  import opened Certificates
  import opened NameConstraints
  import opened PathSearch
  import opened PathOutcome

  // ----- permuted sequences

  function Without<T>(s: seq<T>, i: nat): seq<T>
    requires i < |s|
  {
    s[..i] + s[i + 1..]
  }

  lemma {:induction false} SumWithout<T>(s: seq<T>, i: nat, f: T -> nat)
    requires i < |s|
    ensures Sum(s, f) == f(s[i]) + Sum(Without(s, i), f)
  {
    if i == 0 {
      assert Without(s, 0) == s[1..];
    } else {
      SumWithout(s[1..], i - 1, f);
      var rest := Without(s, i);
      assert rest[0] == s[0] && rest[1..] == Without(s[1..], i - 1);
    }
  }

  lemma MultisetWithout<T>(s: seq<T>, i: nat)
    requires i < |s|
    ensures multiset(Without(s, i)) == multiset(s) - multiset{s[i]}
  {
    assert s == s[..i] + [s[i]] + s[i + 1..];
  }

  /** Taking the first element out of both leaves two permuted sequences. */
  lemma FirstInPermuted<T>(s: seq<T>, s': seq<T>) returns (i: nat)
    requires multiset(s) == multiset(s') && s != []
    ensures i < |s'| && s'[i] == s[0] && multiset(s[1..]) == multiset(Without(s', i))
  {
    assert s[0] in multiset(s');
    i :| 0 <= i < |s'| && s'[i] == s[0];
    MultisetWithout(s, 0);
    MultisetWithout(s', i);
    assert Without(s, 0) == s[1..];
  }

  lemma {:induction false} SumPermuted<T>(s: seq<T>, s': seq<T>, f: T -> nat)
    requires multiset(s) == multiset(s')
    ensures Sum(s, f) == Sum(s', f)
    decreases |s|
  {
    if s == [] {
      assert |multiset(s')| == 0;
    } else {
      var i := FirstInPermuted(s, s');
      SumWithout(s', i, f);
      SumPermuted(s[1..], Without(s', i), f);
    }
  }

  lemma {:induction false} SumSame<T>(s: seq<T>, f: T -> nat, g: T -> nat)
    requires forall x :: x in s ==> f(x) == g(x)
    ensures Sum(s, f) == Sum(s, g)
  {
    if s != [] {
      SumSame(s[1..], f, g);
    }
  }

  lemma {:induction false} UnionExactly<T>(s: seq<T>, f: T -> set<Error>, e: Error)
    ensures e in Union(s, f) <==> exists x :: x in s && e in f(x)
  {
    if s != [] {
      UnionExactly(s[1..], f, e);
      assert forall x :: x in s <==> x == s[0] || x in s[1..];
    }
  }

  lemma UnionPermuted<T>(s: seq<T>, s': seq<T>, f: T -> set<Error>, g: T -> set<Error>)
    requires multiset(s) == multiset(s')
    requires forall x :: x in s ==> f(x) == g(x)
    ensures Union(s, f) == Union(s', g)
  {
    SameMembers(s, s');
    forall e
      ensures e in Union(s, f) <==> e in Union(s', g)
    {
      UnionExactly(s, f, e);
      UnionExactly(s', g, e);
    }
  }

  lemma SameMembers<T>(s: seq<T>, s': seq<T>)
    requires multiset(s) == multiset(s')
    ensures forall x :: x in s <==> x in s'
  {
    assert forall x :: x in s <==> x in multiset(s);
    assert forall x :: x in s' <==> x in multiset(s');
  }

  // ----- permuted options

  /** The same anchors and the same intermediates, in another order; everything else is the same. */
  ghost predicate Reordered(o: ChainOptions, p: ChainOptions) {
    && multiset(o.trustAnchors) == multiset(p.trustAnchors)
    && multiset(o.intermediates) == multiset(p.intermediates)
    && p == o.(trustAnchors := p.trustAnchors, intermediates := p.intermediates)
  }

  lemma {:induction false} SignedAlike(o: ChainOptions, p: ChainOptions, cert: Cert, spki: Bytes, keyUsage: Option<Bytes>)
    requires Reordered(o, p)
    ensures Signed(o, cert, spki, keyUsage) == Signed(p, cert, spki, keyUsage)
    ensures SignedCost(o, cert, spki, keyUsage) == SignedCost(p, cert, spki, keyUsage)
    decreases cert
  {
    hide UseCrl;
    assert CheckSigned(o, cert, spki, keyUsage) == CheckSigned(p, cert, spki, keyUsage);
    if cert.eeOrCa.Ca? {
      SignedAlike(o, p, cert.eeOrCa.child, cert.own.spki, cert.own.keyUsage);
    }
  }

  lemma StepsAlike(o: ChainOptions, p: ChainOptions, cert: Cert)
    requires Reordered(o, p)
    ensures forall anchor :: AnchorOutcome(o, cert, anchor) == AnchorOutcome(p, cert, anchor)
    ensures forall anchor :: AnchorCost(o, cert, anchor) == AnchorCost(p, cert, anchor)
    ensures forall entry :: ClimbStep(o, cert, entry) == ClimbStep(p, cert, entry)
  {
    hide CheckNameConstraints, Signed, SignedCost;
    assert Contents(o, cert) == Contents(p, cert);
    forall anchor
      ensures AnchorOutcome(o, cert, anchor) == AnchorOutcome(p, cert, anchor)
      ensures AnchorCost(o, cert, anchor) == AnchorCost(p, cert, anchor)
    {
      SignedAlike(o, p, cert, anchor.spki, None);
    }
  }

  lemma AnchorsAlike(o: ChainOptions, p: ChainOptions, cert: Cert)
    requires Reordered(o, p)
    ensures Sum(o.trustAnchors, anchor => AnchorCost(o, cert, anchor)) == Sum(p.trustAnchors, anchor => AnchorCost(p, cert, anchor))
    ensures Union(o.trustAnchors, anchor => AnchorErrors(o, cert, anchor)) == Union(p.trustAnchors, anchor => AnchorErrors(p, cert, anchor))
    ensures SomeAnchorAccepts(o, cert, o.trustAnchors) <==> SomeAnchorAccepts(p, cert, p.trustAnchors)
  {
    StepsAlike(o, p, cert);
    hide AnchorCost, AnchorOutcome;
    SameMembers(o.trustAnchors, p.trustAnchors);
    SumSame(o.trustAnchors, anchor => AnchorCost(o, cert, anchor), anchor => AnchorCost(p, cert, anchor));
    SumPermuted(o.trustAnchors, p.trustAnchors, anchor => AnchorCost(p, cert, anchor));
    UnionPermuted(o.trustAnchors, p.trustAnchors, anchor => AnchorErrors(o, cert, anchor), anchor => AnchorErrors(p, cert, anchor));
  }

  lemma {:induction false} SearchesAlike(o: ChainOptions, p: ChainOptions, cert: Cert, subCaCount: nat)
    requires !cert.UsedAsCa() ==> subCaCount == 0
    requires Reordered(o, p)
    ensures Cost(o, cert, subCaCount) == Cost(p, cert, subCaCount)
    ensures Raised(o, cert, subCaCount) == Raised(p, cert, subCaCount)
    ensures Accepts(o, cert, subCaCount) <==> Accepts(p, cert, subCaCount)
    decreases Height(cert, subCaCount), 1
  {
    hide CheckIssuerIndependentProperties, AnchorCost, AnchorErrors, SomeAnchorAccepts, EntryCost, EntryErrors, EntryAccepts;
    AnchorsAlike(o, p, cert);
    if MayClimb(o, cert, subCaCount) {
      forall entry
        ensures EntryCost(o, cert, subCaCount, entry) == EntryCost(p, cert, subCaCount, entry)
        ensures EntryErrors(o, cert, subCaCount, entry) == EntryErrors(p, cert, subCaCount, entry)
        ensures EntryAccepts(o, cert, subCaCount, entry) <==> EntryAccepts(p, cert, subCaCount, entry)
      {
        EntriesAlike(o, p, cert, subCaCount, entry);
      }
      SameMembers(o.intermediates, p.intermediates);
      SumSame(o.intermediates, entry => EntryCost(o, cert, subCaCount, entry), entry => EntryCost(p, cert, subCaCount, entry));
      SumPermuted(o.intermediates, p.intermediates, entry => EntryCost(p, cert, subCaCount, entry));
      UnionPermuted(o.intermediates, p.intermediates, entry => EntryErrors(o, cert, subCaCount, entry), entry => EntryErrors(p, cert, subCaCount, entry));
      assert SomeEntryAccepts(o, cert, subCaCount, o.intermediates) <==> SomeEntryAccepts(p, cert, subCaCount, p.intermediates);
    }
  }

  lemma {:induction false} EntriesAlike(o: ChainOptions, p: ChainOptions, cert: Cert, subCaCount: nat, entry: PoolEntry)
    requires (!cert.UsedAsCa() ==> subCaCount == 0) && !TooDeep(cert, subCaCount)
    requires Reordered(o, p)
    ensures EntryCost(o, cert, subCaCount, entry) == EntryCost(p, cert, subCaCount, entry)
    ensures EntryErrors(o, cert, subCaCount, entry) == EntryErrors(p, cert, subCaCount, entry)
    ensures EntryAccepts(o, cert, subCaCount, entry) <==> EntryAccepts(p, cert, subCaCount, entry)
    decreases Height(cert, subCaCount), 0
  {
    StepsAlike(o, p, cert);
    hide ClimbStep, Cost, Raised, Accepts;
    var step := ClimbStep(o, cert, entry);
    if step.Ok? {
      SearchesAlike(o, p, Cert(step.value, Ca(cert)), NextSubCaCount(cert, subCaCount));
    }
  }

  /** If a run fails within its budget then so does the run on any reordering, with the same counter
      and an error of the same rank, the highest of any error raised in the tree. */
  lemma OrderDoesNotMatter(o: ChainOptions, p: ChainOptions, endEntity: Parsed)
    requires Reordered(o, p)
    ensures
      var cert := Cert(endEntity, EndEntity);
      var r := Search(o, cert, 0, Tally(0, 0, 0, 0));
      var s := Search(p, cert, 0, Tally(0, 0, 0, 0));
      r.0.Err? && r.1.signatures <= MAX_SIGNATURES ==>
        && s.0.Err? && s.1.signatures == r.1.signatures
        && s.0.error.Rank() == r.0.error.Rank()
        && MostSpecificOf(r.0.error, Raised(o, cert, 0))
  {
    var cert := Cert(endEntity, EndEntity);
    SearchesAlike(o, p, cert, 0);
    SearchWithinBudget(o, cert, 0, Tally(0, 0, 0, 0));
    SearchWithinBudget(p, cert, 0, Tally(0, 0, 0, 0));
    hide Search, Raised, Cost, UpTo, Accepts, Error.Rank;
    if !Accepts(o, cert, 0) {
      FailureCostsAll(o, cert, 0);
      FailureCostsAll(p, cert, 0);
    }
  }
}
