/** Which paths the search accepts, said without the search: soundness and completeness
    (src/verify_cert.rs:136-294). */
module PathMeaning {
  import opened Basics
  import opened Certificates
  import opened CertificateMeaning
  import opened NameConstraints
  import opened NameConstraintMeaning
  import opened NameMeaning
  import opened PathSearch
  import opened PathOutcome
  import opened RevocationStatus


  function ChainOf(path: seq<Parsed>): (cert: Cert)
    requires path != []
    ensures cert.own == path[|path| - 1] && (cert.UsedAsCa() <==> |path| > 1)
  {
    var k := |path| - 1;
    Cert(path[k], if k == 0 then EndEntity else Ca(ChainOf(path[..k])))
  }

  /** How many intermediates lie below the certificate that stands behind `n` others, without the lowest. */
  function SubCas(n: nat): nat {
    if n <= 1 then 0 else n - 1
  }

  // ----- valid paths

  /** Validity period, use as a CA or not, and key purpose of one certificate, at its own depth. */
  ghost predicate PassesAlone(o: ChainOptions, path: seq<Parsed>, k: nat)
    requires k < |path|
  {
    && ValidAt(path[k].validity, o.time)
    && MayBeUsed(path[k].basicConstraints, k > 0, SubCas(k))
    && HasPurpose(path[k].eku, o.eku)
  }

  /** The subject common name counts only when the holder stands directly behind the end entity. */
  function ContentsFor(o: ChainOptions, below: seq<Parsed>): SubjectCommonNameContents {
    if o.eku.oid == [43, 6, 1, 5, 5, 7, 3, 1] && |below| == 1 then DnsNameContents else Ignore
  }

  /** All names of all certificates below conform to these name constraints. */
  ghost predicate NamesAllowed(o: ChainOptions, constraints: Option<Bytes>, below: seq<Parsed>) {
    constraints.None?
    || exists permitted, excluded ::
         && HasSubtrees(constraints.value, permitted, excluded)
         && forall c :: c in below ==> AllNamesConform(c, permitted, excluded, ContentsFor(o, below))
  }

  /** A certificate on the path has the same key and the same subject. */
  predicate Repeats(c: Parsed, path: seq<Parsed>) {
    exists i :: 0 <= i < |path| && c.spki == path[i].spki && c.subject == path[i].subject
  }

  /** The certificate may stand behind this path. */
  ghost predicate MayFollow(o: ChainOptions, below: seq<Parsed>, c: Parsed)
    requires below != []
  {
    c.subject == below[|below| - 1].issuer && !Repeats(c, below) && NamesAllowed(o, c.nameConstraints, below)
  }

  function KeyAbove(path: seq<Parsed>, k: nat, top: Bytes): Bytes {
    if k + 1 < |path| then path[k + 1].spki else top
  }

  function KeyUsageAbove(path: seq<Parsed>, k: nat, top: Option<Bytes>): Option<Bytes> {
    if k + 1 < |path| then path[k + 1].keyUsage else top
  }

  /** The key above verifies the signature, and the revocation status is known to be good enough. */
  ghost predicate SignedAt(o: ChainOptions, path: seq<Parsed>, k: nat, spki: Bytes, keyUsage: Option<Bytes>)
    requires k < |path|
  {
    var key, usage := KeyAbove(path, k, spki), KeyUsageAbove(path, k, keyUsage);
    && o.verify(key, path[k].signedData).Ok?
    && (o.revocation.Some? ==> StatusKnown(o, o.revocation.value, ChainOf(path[..k + 1]), key, usage))
  }

  ghost predicate AllSigned(o: ChainOptions, path: seq<Parsed>, spki: Bytes, keyUsage: Option<Bytes>) {
    forall k :: 0 <= k < |path| ==> SignedAt(o, path, k, spki, keyUsage)
  }

  ghost predicate AnchorHolds(o: ChainOptions, path: seq<Parsed>, anchor: TrustAnchor)
    requires path != []
  {
    && path[|path| - 1].issuer == anchor.subject
    && NamesAllowed(o, anchor.nameConstraints, path)
    && AllSigned(o, path, anchor.spki, None)
  }

  /** The certificate is one of the pool and may follow the ones below it. */
  ghost predicate ClimbsAt(o: ChainOptions, path: seq<Parsed>, k: nat)
    requires 0 < k < |path|
  {
    Ok(path[k]) in o.intermediates && MayFollow(o, path[..k], path[k])
  }

  /** A path that the search may have reached: everything but its last certificate has been checked. */
  ghost predicate Climbs(o: ChainOptions, path: seq<Parsed>) {
    && path != []
    && (forall k :: 0 <= k < |path| - 1 ==> PassesAlone(o, path, k))
    && (forall k :: 0 < k < |path| ==> ClimbsAt(o, path, k))
  }

  ghost predicate ValidPath(o: ChainOptions, path: seq<Parsed>, anchor: TrustAnchor) {
    && 1 <= |path| <= 7
    && anchor in o.trustAnchors
    && (forall k :: 0 <= k < |path| ==> PassesAlone(o, path, k))
    && (forall k :: 0 < k < |path| ==> ClimbsAt(o, path, k))
    && AnchorHolds(o, path, anchor)
  }

  // ----- one step of the search

  lemma {:induction false} InChainExactly(c: Parsed, path: seq<Parsed>)
    requires path != []
    ensures InChain(c, ChainOf(path)) <==> c in path
  {
    var k := |path| - 1;
    if k > 0 {
      InChainExactly(c, path[..k]);
      assert c in path <==> c in path[..k] || c == path[k];
    }
  }

  lemma NamesAllowedExactly(o: ChainOptions, constraints: Option<Bytes>, path: seq<Parsed>)
    requires path != []
    ensures CheckNameConstraints(constraints, ChainOf(path), Contents(o, ChainOf(path))).Ok? <==> NamesAllowed(o, constraints, path)
  {
    if constraints.Some? {
      NameConstraintsMeaning(constraints.value, ChainOf(path), Contents(o, ChainOf(path)));
      hide CheckNameConstraints, HasSubtrees, AllNamesConform, InChain;
      forall c
        ensures InChain(c, ChainOf(path)) <==> c in path
      {
        InChainExactly(c, path);
      }
    }
  }

  lemma {:induction false} RepeatsExactly(c: Parsed, path: seq<Parsed>)
    requires path != []
    ensures LoopsBack(c, ChainOf(path)) <==> Repeats(c, path)
  {
    var k := |path| - 1;
    if k > 0 {
      RepeatsExactly(c, path[..k]);
      assert forall i :: 0 <= i < k ==> path[..k][i] == path[i];
    }
  }

  lemma ClimbExactly(o: ChainOptions, path: seq<Parsed>, entry: PoolEntry)
    requires path != []
    ensures ClimbStep(o, ChainOf(path), entry).Ok? <==> entry.Ok? && MayFollow(o, path, entry.value)
    ensures ClimbStep(o, ChainOf(path), entry).Ok? ==> ClimbStep(o, ChainOf(path), entry).value == entry.value
  {
    hide CheckNameConstraints, NamesAllowed, LoopsBack, Repeats;
    if entry.Ok? {
      RepeatsExactly(entry.value, path);
      NamesAllowedExactly(o, entry.value.nameConstraints, path);
    }
  }

  lemma SignedBelow(o: ChainOptions, path: seq<Parsed>, spki: Bytes, keyUsage: Option<Bytes>)
    requires |path| > 1
    ensures
      var top := path[|path| - 1];
      AllSigned(o, path, spki, keyUsage) <==>
        SignedAt(o, path, |path| - 1, spki, keyUsage) && AllSigned(o, path[..|path| - 1], top.spki, top.keyUsage)
  {
    hide StatusKnown, ChainOf;
    var top := |path| - 1;
    forall k | 0 <= k < top
      ensures SignedAt(o, path, k, spki, keyUsage) == SignedAt(o, path[..top], k, path[top].spki, path[top].keyUsage)
    {
      assert path[..top][..k + 1] == path[..k + 1];
    }
  }

  lemma SignedAtExactly(o: ChainOptions, path: seq<Parsed>, k: nat, spki: Bytes, keyUsage: Option<Bytes>)
    requires k < |path|
    ensures SignedAt(o, path, k, spki, keyUsage) <==>
            CheckSigned(o, ChainOf(path[..k + 1]), KeyAbove(path, k, spki), KeyUsageAbove(path, k, keyUsage)).Ok?
  {
    hide StatusKnown, CheckCrls, KeyAbove, KeyUsageAbove;
    if o.revocation.Some? {
      StatusExactly(o, o.revocation.value, ChainOf(path[..k + 1]), KeyAbove(path, k, spki), KeyUsageAbove(path, k, keyUsage));
    }
  }

  lemma {:induction false} SignedExactly(o: ChainOptions, path: seq<Parsed>, spki: Bytes, keyUsage: Option<Bytes>)
    requires path != []
    ensures Signed(o, ChainOf(path), spki, keyUsage).Ok? <==> AllSigned(o, path, spki, keyUsage)
  {
    hide CheckSigned, SignedAt;
    var top := |path| - 1;
    assert path[..top + 1] == path;
    SignedAtExactly(o, path, top, spki, keyUsage);
    if top > 0 {
      SignedBelow(o, path, spki, keyUsage);
      SignedExactly(o, path[..top], path[top].spki, path[top].keyUsage);
    }
  }

  lemma AnchorExactly(o: ChainOptions, path: seq<Parsed>, anchor: TrustAnchor)
    requires path != []
    ensures AnchorOutcome(o, ChainOf(path), anchor).Ok? <==> AnchorHolds(o, path, anchor)
  {
    hide CheckNameConstraints, NamesAllowed, Signed, AllSigned;
    NamesAllowedExactly(o, anchor.nameConstraints, path);
    SignedExactly(o, path, anchor.spki, None);
  }

  // ----- soundness and completeness

  ghost predicate AcceptsPath(o: ChainOptions, path: seq<Parsed>)
    requires path != []
  {
    Accepts(o, ChainOf(path), SubCas(|path| - 1))
  }

  lemma PassesAloneExactly(o: ChainOptions, path: seq<Parsed>)
    requires path != []
    ensures
      var cert := ChainOf(path);
      PassesAlone(o, path, |path| - 1) <==>
      CheckIssuerIndependentProperties(cert.own, o.time, cert.UsedAsCa(), SubCas(|path| - 1), o.eku).Ok?
  {
    hide CheckIssuerIndependentProperties, ValidAt, MayBeUsed, HasPurpose;
    var k := |path| - 1;
    PassesExactly(path[k], o.time, k > 0, SubCas(k), o.eku);
  }

  lemma Extended(o: ChainOptions, path: seq<Parsed>, c: Parsed)
    requires Climbs(o, path) && PassesAlone(o, path, |path| - 1)
    requires Ok(c) in o.intermediates && MayFollow(o, path, c)
    ensures Climbs(o, path + [c]) && path <= path + [c]
  {
    hide ValidAt, MayBeUsed, HasPurpose, MayFollow;
    var longer := path + [c];
    forall k | 0 < k < |longer|
      ensures ClimbsAt(o, longer, k)
    {
      assert longer[..k] == path[..k];
      assert k < |path| ==> ClimbsAt(o, path, k);
      assert k == |path| ==> longer[..k] == path;
    }
    forall k | 0 <= k < |path|
      ensures PassesAlone(o, longer, k)
    {
      assert PassesAlone(o, path, k);
    }
  }

  lemma {:induction false} AcceptedPathsAreValid(o: ChainOptions, path: seq<Parsed>) returns (full: seq<Parsed>, anchor: TrustAnchor)
    requires Climbs(o, path) && AcceptsPath(o, path)
    ensures path <= full && ValidPath(o, full, anchor)
    decreases Height(ChainOf(path), SubCas(|path| - 1))
  {
    hide CheckIssuerIndependentProperties, PassesAlone, AnchorOutcome, AnchorHolds, MayFollow, ClimbStep, ClimbsAt;
    var cert, n := ChainOf(path), SubCas(|path| - 1);
    PassesAloneExactly(o, path);
    if SomeAnchorAccepts(o, cert, o.trustAnchors) {
      anchor :| anchor in o.trustAnchors && AnchorOutcome(o, cert, anchor).Ok?;
      full := path;
      AnchorExactly(o, path, anchor);
    } else {
      assert SomeEntryAccepts(o, cert, n, o.intermediates);
      var entry :| entry in o.intermediates && EntryAccepts(o, cert, n, entry);
      ClimbExactly(o, path, entry);
      Extended(o, path, entry.value);
      var longer := path + [entry.value];
      assert longer[..|path|] == path;
      full, anchor := AcceptedPathsAreValid(o, longer);
    }
  }

  lemma {:induction false} ValidPathsAreAccepted(o: ChainOptions, full: seq<Parsed>, anchor: TrustAnchor, k: nat)
    requires ValidPath(o, full, anchor) && 1 <= k <= |full|
    ensures AcceptsPath(o, full[..k])
    decreases |full| - k
  {
    hide CheckIssuerIndependentProperties, ValidAt, MayBeUsed, HasPurpose, AnchorOutcome, AnchorHolds, MayFollow, ClimbStep;
    var path := full[..k];
    assert PassesAlone(o, full, k - 1);
    PassesAloneExactly(o, path);
    if k == |full| {
      assert path == full;
      AnchorExactly(o, full, anchor);
    } else {
      ValidPathsAreAccepted(o, full, anchor, k + 1);
      assert ClimbsAt(o, full, k);
      assert full[..k + 1][..k] == path;
      ClimbExactly(o, path, Ok(full[k]));
      assert EntryAccepts(o, ChainOf(path), SubCas(k - 1), Ok(full[k]));
      assert SomeEntryAccepts(o, ChainOf(path), SubCas(k - 1), o.intermediates);
    }
  }

  ghost predicate HasValidPath(o: ChainOptions, endEntity: Parsed) {
    exists path, anchor :: ValidPath(o, path, anchor) && path[0] == endEntity
  }

  /** The search succeeds exactly when there is a valid path and the signatures checked up to the first
      one found fit in the budget; so when it fails within the budget there is no valid path. */
  lemma SoundAndComplete(o: ChainOptions, endEntity: Parsed)
    ensures
      var cert := Cert(endEntity, EndEntity);
      var r := Search(o, cert, 0, Tally(0, 0, 0, 0));
      && (r.0.Ok? <==> HasValidPath(o, endEntity) && UpTo(o, cert, 0) <= 100)
      && (r.0.Ok? ==> r.1.signatures <= 100)
      && (r.0.Err? && r.1.signatures <= 100 ==> !HasValidPath(o, endEntity))
  {
    SearchWithinBudget(o, Cert(endEntity, EndEntity), 0, Tally(0, 0, 0, 0));
    hide Search, Accepts, ValidPath, MostSpecificOf, UpTo, Raised;
    AcceptsExactly(o, endEntity);
  }

  lemma AcceptsExactly(o: ChainOptions, endEntity: Parsed)
    ensures Accepts(o, Cert(endEntity, EndEntity), 0) <==> HasValidPath(o, endEntity)
  {
    hide Accepts, MayFollow, AnchorHolds, PassesAlone;
    var path := [endEntity];
    assert ChainOf(path) == Cert(endEntity, EndEntity);
    if AcceptsPath(o, path) {
      var full, anchor := AcceptedPathsAreValid(o, path);
      assert full[0] == endEntity;
    }
    if HasValidPath(o, endEntity) {
      var full, anchor :| ValidPath(o, full, anchor) && full[0] == endEntity;
      ValidPathsAreAccepted(o, full, anchor, 1);
      assert full[..1] == path;
    }
  }
}
