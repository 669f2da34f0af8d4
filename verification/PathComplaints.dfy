/** Which errors a search can report, said without the search: where on a path that may be climbed each
    of them arises (src/verify_cert.rs:136-294, src/error.rs:183-196). */
module PathComplaints {
  import opened Basics
  import opened Certificates
  import opened CertificateMeaning
  import opened NameConstraints
  import opened NameConstraintMeaning
  import opened PathErrors
  import opened PathSearch
  import opened PathMeaning
  import opened PathOutcome
  import opened RevocationStatus

  /** The search comes to the last certificate of this path. */
  ghost predicate Reached(o: ChainOptions, path: seq<Parsed>) {
    Climbs(o, path) && |path| <= 8
  }

  /** The names of the path do not conform, or the constraints or names cannot be read. */
  ghost predicate NamesComplain(o: ChainOptions, constraints: Option<Bytes>, path: seq<Parsed>, e: Error)
    requires path != []
  {
    !NamesAllowed(o, constraints, path) && CheckNameConstraints(constraints, ChainOf(path), Contents(o, ChainOf(path))) == Err(e)
  }

  /** The certificate at `k` is not signed by the key above it, or its status is not good enough. */
  ghost predicate SignatureComplains(o: ChainOptions, path: seq<Parsed>, k: nat, spki: Bytes, keyUsage: Option<Bytes>, e: Error)
    requires k < |path|
  {
    var key, usage := KeyAbove(path, k, spki), KeyUsageAbove(path, k, keyUsage);
    var signature := o.verify(key, path[k].signedData);
    if signature.Err? then e == signature.error
    else o.revocation.Some? && StatusFailsWith(o, o.revocation.value, ChainOf(path[..k + 1]), key, usage, e)
  }

  /** It does so for the first certificate from the top that is not in order. */
  ghost predicate SignaturesComplain(o: ChainOptions, path: seq<Parsed>, spki: Bytes, keyUsage: Option<Bytes>, e: Error) {
    exists k :: ComplainsFirstAt(o, path, k, spki, keyUsage, e)
  }

  ghost predicate ComplainsFirstAt(o: ChainOptions, path: seq<Parsed>, k: int, spki: Bytes, keyUsage: Option<Bytes>, e: Error) {
    && 0 <= k < |path|
    && (forall j :: k < j < |path| ==> SignedAt(o, path, j, spki, keyUsage))
    && SignatureComplains(o, path, k, spki, keyUsage, e)
  }

  /** What a trust anchor gives that does not accept the path. */
  ghost predicate AnchorComplains(o: ChainOptions, path: seq<Parsed>, anchor: TrustAnchor, e: Error)
    requires path != []
  {
    if path[|path| - 1].issuer != anchor.subject then e == UnknownIssuer
    else || NamesComplain(o, anchor.nameConstraints, path, e)
         || (NamesAllowed(o, anchor.nameConstraints, path) && SignaturesComplain(o, path, anchor.spki, None, e))
  }

  /** What an intermediate gives that may not stand behind the path: it could not be parsed, or is not
      the issuer, or is on the path already, or its name constraints do not hold. */
  ghost predicate EntryComplains(o: ChainOptions, path: seq<Parsed>, entry: PoolEntry, e: Error)
    requires path != []
  {
    match entry
    case Err(parseError) => e == parseError
    case Ok(c) =>
      if c.subject != path[|path| - 1].issuer || Repeats(c, path) then e == UnknownIssuer
      else NamesComplain(o, c.nameConstraints, path, e)
  }

  /** An error that arises at the last certificate of the path: its own, or if it passes on its own,
      that no issuer is known, or what an anchor or an intermediate gives. */
  ghost predicate Complains(o: ChainOptions, path: seq<Parsed>, e: Error)
    requires path != []
  {
    var k := |path| - 1;
    if !PassesAlone(o, path, k) then FailsWith(path[k], o.time, k > 0, SubCas(k), o.eku, e)
    else
      || e == UnknownIssuer
      || (|path| <= 7
          && (|| (exists anchor :: anchor in o.trustAnchors && AnchorComplains(o, path, anchor, e))
              || (exists entry :: entry in o.intermediates && EntryComplains(o, path, entry, e))))
  }

  /** The error arises somewhere. */
  ghost predicate Arises(o: ChainOptions, endEntity: Parsed, e: Error) {
    exists path :: Reached(o, path) && path[0] == endEntity && Complains(o, path, e)
  }

  /** It arises, and no other that does is more specific. */
  ghost predicate MostSpecificArising(o: ChainOptions, endEntity: Parsed, e: Error) {
    && Arises(o, endEntity, e)
    && forall other :: Arises(o, endEntity, other) ==> e.MostSpecific(other) == e
  }

  // ----- one step

  lemma NamesComplainExactly(o: ChainOptions, constraints: Option<Bytes>, path: seq<Parsed>, e: Error)
    requires path != []
    ensures CheckNameConstraints(constraints, ChainOf(path), Contents(o, ChainOf(path))) == Err(e) <==> NamesComplain(o, constraints, path, e)
  {
    hide CheckNameConstraints, NamesAllowed;
    NamesAllowedExactly(o, constraints, path);
  }

  lemma SignatureComplainsExactly(o: ChainOptions, path: seq<Parsed>, k: nat, spki: Bytes, keyUsage: Option<Bytes>, e: Error)
    requires k < |path|
    ensures
      var key, usage := KeyAbove(path, k, spki), KeyUsageAbove(path, k, keyUsage);
      CheckSigned(o, ChainOf(path[..k + 1]), key, usage) == Err(e) <==> SignatureComplains(o, path, k, spki, keyUsage, e)
  {
    hide StatusFailsWith, CheckCrls, KeyAbove, KeyUsageAbove;
    if o.revocation.Some? {
      StatusErrors(o, o.revocation.value, ChainOf(path[..k + 1]), KeyAbove(path, k, spki), KeyUsageAbove(path, k, keyUsage), e);
    }
  }

  lemma ComplainsBelow(o: ChainOptions, path: seq<Parsed>, k: nat, spki: Bytes, keyUsage: Option<Bytes>, e: Error)
    requires k + 1 < |path|
    ensures
      var top := |path| - 1;
      && (SignedAt(o, path, k, spki, keyUsage) <==> SignedAt(o, path[..top], k, path[top].spki, path[top].keyUsage))
      && (SignatureComplains(o, path, k, spki, keyUsage, e)
          <==> SignatureComplains(o, path[..top], k, path[top].spki, path[top].keyUsage, e))
  {
    hide StatusKnown, StatusFailsWith, ChainOf;
    assert path[..|path| - 1][..k + 1] == path[..k + 1];
  }

  lemma TopComplains(o: ChainOptions, path: seq<Parsed>, spki: Bytes, keyUsage: Option<Bytes>, e: Error)
    requires path != []
    ensures
      var checked := CheckSigned(o, ChainOf(path), spki, keyUsage);
      && (checked.Ok? <==> SignedAt(o, path, |path| - 1, spki, keyUsage))
      && (checked == Err(e) <==> SignatureComplains(o, path, |path| - 1, spki, keyUsage, e))
  {
    hide CheckSigned, SignedAt, SignatureComplains;
    assert path[..|path|] == path;
    SignedAtExactly(o, path, |path| - 1, spki, keyUsage);
    SignatureComplainsExactly(o, path, |path| - 1, spki, keyUsage, e);
  }

  lemma FirstBelow(o: ChainOptions, path: seq<Parsed>, k: int, spki: Bytes, keyUsage: Option<Bytes>, e: Error)
    requires path != []
    ensures
      var top := |path| - 1;
      ComplainsFirstAt(o, path, k, spki, keyUsage, e) <==>
      if k == top then SignatureComplains(o, path, top, spki, keyUsage, e)
      else SignedAt(o, path, top, spki, keyUsage) && ComplainsFirstAt(o, path[..top], k, path[top].spki, path[top].keyUsage, e)
  {
    hide SignedAt, SignatureComplains;
    var top := |path| - 1;
    forall j | 0 <= j < top
      ensures
        && (SignedAt(o, path, j, spki, keyUsage) <==> SignedAt(o, path[..top], j, path[top].spki, path[top].keyUsage))
        && (SignatureComplains(o, path, j, spki, keyUsage, e)
            <==> SignatureComplains(o, path[..top], j, path[top].spki, path[top].keyUsage, e))
    {
      ComplainsBelow(o, path, j, spki, keyUsage, e);
    }
  }

  /** The top complains, or it is in order and what is below complains to it. */
  lemma SignaturesComplainUnfolds(o: ChainOptions, path: seq<Parsed>, spki: Bytes, keyUsage: Option<Bytes>, e: Error)
    requires path != []
    ensures
      var top := |path| - 1;
      SignaturesComplain(o, path, spki, keyUsage, e) <==>
      || SignatureComplains(o, path, top, spki, keyUsage, e)
      || (SignedAt(o, path, top, spki, keyUsage) && SignaturesComplain(o, path[..top], path[top].spki, path[top].keyUsage, e))
  {
    hide SignedAt, SignatureComplains, ComplainsFirstAt;
    var top := |path| - 1;
    forall k
      ensures ComplainsFirstAt(o, path, k, spki, keyUsage, e) <==>
              if k == top then SignatureComplains(o, path, top, spki, keyUsage, e)
              else SignedAt(o, path, top, spki, keyUsage) && ComplainsFirstAt(o, path[..top], k, path[top].spki, path[top].keyUsage, e)
      ensures !ComplainsFirstAt(o, path[..top], top, path[top].spki, path[top].keyUsage, e)
    {
      FirstBelow(o, path, k, spki, keyUsage, e);
      NoneAbove(o, path[..top], path[top].spki, path[top].keyUsage, e);
    }
    if SignatureComplains(o, path, top, spki, keyUsage, e) {
      assert ComplainsFirstAt(o, path, top, spki, keyUsage, e);
    }
  }

  lemma NoneAbove(o: ChainOptions, path: seq<Parsed>, spki: Bytes, keyUsage: Option<Bytes>, e: Error)
    ensures !ComplainsFirstAt(o, path, |path|, spki, keyUsage, e)
    ensures path == [] ==> !SignaturesComplain(o, path, spki, keyUsage, e)
  {
  }

  lemma SignedUnfolds(o: ChainOptions, path: seq<Parsed>, spki: Bytes, keyUsage: Option<Bytes>)
    requires path != []
    ensures
      var checked, top := CheckSigned(o, ChainOf(path), spki, keyUsage), |path| - 1;
      Signed(o, ChainOf(path), spki, keyUsage)
      == if checked.Err? || top == 0 then checked else Signed(o, ChainOf(path[..top]), path[top].spki, path[top].keyUsage)
  {
    hide CheckSigned;
    var checked := CheckSigned(o, ChainOf(path), spki, keyUsage);
    OnlyOneOk(checked);
  }

  lemma {:induction false} SignaturesComplainExactly(o: ChainOptions, path: seq<Parsed>, spki: Bytes, keyUsage: Option<Bytes>, e: Error)
    requires path != []
    ensures Signed(o, ChainOf(path), spki, keyUsage) == Err(e) <==> SignaturesComplain(o, path, spki, keyUsage, e)
    decreases |path|
  {
    hide CheckSigned, SignedAt, SignatureComplains, SignaturesComplain, Signed;
    var top := |path| - 1;
    TopComplains(o, path, spki, keyUsage, e);
    SignaturesComplainUnfolds(o, path, spki, keyUsage, e);
    SignedUnfolds(o, path, spki, keyUsage);
    if top > 0 {
      SignaturesComplainExactly(o, path[..top], path[top].spki, path[top].keyUsage, e);
    } else {
      NoneAbove(o, path[..0], path[0].spki, path[0].keyUsage, e);
    }
  }

  lemma AnchorComplainsExactly(o: ChainOptions, path: seq<Parsed>, anchor: TrustAnchor, e: Error)
    requires path != []
    ensures AnchorOutcome(o, ChainOf(path), anchor) == Err(e) <==> AnchorComplains(o, path, anchor, e)
    ensures e in AnchorErrors(o, ChainOf(path), anchor) <==> AnchorComplains(o, path, anchor, e)
  {
    hide CheckNameConstraints, Signed, NamesAllowed, SignaturesComplain;
    NamesAllowedExactly(o, anchor.nameConstraints, path);
    SignaturesComplainExactly(o, path, anchor.spki, None, e);
  }

  lemma EntryComplainsExactly(o: ChainOptions, path: seq<Parsed>, entry: PoolEntry, e: Error)
    requires path != []
    ensures ClimbStep(o, ChainOf(path), entry) == Err(e) <==> EntryComplains(o, path, entry, e)
  {
    hide CheckNameConstraints, NamesComplain, LoopsBack, Repeats;
    if entry.Ok? {
      RepeatsExactly(entry.value, path);
      NamesComplainExactly(o, entry.value.nameConstraints, path, e);
    }
  }

  lemma FailsAloneExactly(o: ChainOptions, path: seq<Parsed>, e: Error)
    requires path != []
    ensures
      var cert, k := ChainOf(path), |path| - 1;
      CheckIssuerIndependentProperties(cert.own, o.time, cert.UsedAsCa(), SubCas(k), o.eku) == Err(e)
      <==> FailsWith(path[k], o.time, k > 0, SubCas(k), o.eku, e)
  {
    hide CheckIssuerIndependentProperties, FailsWith;
    var k := |path| - 1;
    FailsExactly(path[k], o.time, k > 0, SubCas(k), o.eku, e);
  }

  lemma {:induction false} InUnion<T>(s: seq<T>, f: T -> set<Error>, e: Error)
    ensures e in Union(s, f) <==> exists x :: x in s && e in f(x)
  {
    if s != [] {
      InUnion(s[1..], f, e);
      assert forall x :: x in s <==> x == s[0] || x in s[1..];
    }
  }

  // ----- what is raised, one level at a time

  ghost predicate RaisedFrom(o: ChainOptions, path: seq<Parsed>, e: Error)
    requires path != []
  {
    e in Raised(o, ChainOf(path), SubCas(|path| - 1))
  }

  lemma DepthExactly(o: ChainOptions, path: seq<Parsed>)
    requires path != []
    ensures TooDeep(ChainOf(path), SubCas(|path| - 1)) <==> |path| >= 8
  {
    hide ChainOf;
  }

  /** Where it fails on its own or is too deep, this is all. */
  lemma RaisedAtOnce(o: ChainOptions, path: seq<Parsed>, e: Error)
    requires path != [] && (!PassesAlone(o, path, |path| - 1) || |path| >= 8)
    ensures RaisedFrom(o, path, e) <==> Complains(o, path, e)
  {
    hide CheckIssuerIndependentProperties, PassesAlone, FailsWith, AnchorComplains, EntryComplains;
    PassesAloneExactly(o, path);
    FailsAloneExactly(o, path, e);
    DepthExactly(o, path);
  }

  lemma RaisedByAnchors(o: ChainOptions, path: seq<Parsed>, e: Error)
    requires path != []
    ensures e in Union(o.trustAnchors, anchor => AnchorErrors(o, ChainOf(path), anchor))
       <==> exists anchor :: anchor in o.trustAnchors && AnchorComplains(o, path, anchor, e)
  {
    hide AnchorErrors, AnchorComplains, Union;
    InUnion(o.trustAnchors, anchor => AnchorErrors(o, ChainOf(path), anchor), e);
    forall anchor | anchor in o.trustAnchors
      ensures e in AnchorErrors(o, ChainOf(path), anchor) <==> AnchorComplains(o, path, anchor, e)
    {
      AnchorComplainsExactly(o, path, anchor, e);
    }
  }

  /** Something is raised behind an intermediate that may follow. */
  ghost predicate RaisedBehind(o: ChainOptions, path: seq<Parsed>, e: Error)
    requires path != []
  {
    exists c :: Ok(c) in o.intermediates && MayFollow(o, path, c) && RaisedFrom(o, path + [c], e)
  }

  lemma RaisedByEntries(o: ChainOptions, path: seq<Parsed>, e: Error)
    requires path != [] && |path| <= 7
    ensures !TooDeep(ChainOf(path), SubCas(|path| - 1))
    ensures e in Union(o.intermediates, entry => EntryErrors(o, ChainOf(path), SubCas(|path| - 1), entry))
       <==> (exists entry :: entry in o.intermediates && EntryComplains(o, path, entry, e)) || RaisedBehind(o, path, e)
  {
    hide EntryErrors, EntryComplains, Union, MayFollow, RaisedFrom, ChainOf, TooDeep;
    DepthExactly(o, path);
    var cert, n := ChainOf(path), SubCas(|path| - 1);
    InUnion(o.intermediates, entry => EntryErrors(o, cert, n, entry), e);
    forall entry | entry in o.intermediates
      ensures e in EntryErrors(o, cert, n, entry)
         <==> EntryComplains(o, path, entry, e) || (entry.Ok? && MayFollow(o, path, entry.value) && RaisedFrom(o, path + [entry.value], e))
    {
      RaisedByEntry(o, path, entry, e);
    }
  }

  lemma RaisedSplits(o: ChainOptions, path: seq<Parsed>, e: Error)
    requires path != [] && PassesAlone(o, path, |path| - 1) && |path| <= 7
    ensures !TooDeep(ChainOf(path), SubCas(|path| - 1))
    ensures RaisedFrom(o, path, e) <==>
            || e == UnknownIssuer
            || e in Union(o.trustAnchors, anchor => AnchorErrors(o, ChainOf(path), anchor))
            || e in Union(o.intermediates, entry => EntryErrors(o, ChainOf(path), SubCas(|path| - 1), entry))
  {
    hide CheckIssuerIndependentProperties, PassesAlone, AnchorErrors, EntryErrors, Union, ChainOf, SubCas;
    PassesAloneExactly(o, path);
    DepthExactly(o, path);
  }

  /** And otherwise what arises here, or is raised behind an intermediate that may follow. */
  lemma RaisedUnfolds(o: ChainOptions, path: seq<Parsed>, e: Error)
    requires path != [] && PassesAlone(o, path, |path| - 1) && |path| <= 7
    ensures RaisedFrom(o, path, e) <==> Complains(o, path, e) || RaisedBehind(o, path, e)
  {
    hide PassesAlone, AnchorErrors, AnchorComplains, EntryComplains, EntryErrors, Union, RaisedBehind, RaisedFrom, ChainOf, SubCas, TooDeep, FailsWith;
    RaisedSplits(o, path, e);
    RaisedByAnchors(o, path, e);
    RaisedByEntries(o, path, e);
  }

  lemma RaisedByEntry(o: ChainOptions, path: seq<Parsed>, entry: PoolEntry, e: Error)
    requires path != [] && |path| <= 7
    ensures !TooDeep(ChainOf(path), SubCas(|path| - 1))
    ensures e in EntryErrors(o, ChainOf(path), SubCas(|path| - 1), entry)
       <==> EntryComplains(o, path, entry, e) || (entry.Ok? && MayFollow(o, path, entry.value) && RaisedFrom(o, path + [entry.value], e))
  {
    hide ClimbStep, MayFollow, EntryComplains, Raised;
    DepthExactly(o, path);
    ClimbExactly(o, path, entry);
    EntryComplainsExactly(o, path, entry, e);
    if entry.Ok? {
      assert (path + [entry.value])[..|path|] == path;
      assert ChainOf(path + [entry.value]) == Cert(entry.value, Ca(ChainOf(path)));
    }
  }

  // ----- all levels

  lemma {:induction false} RaisedArises(o: ChainOptions, path: seq<Parsed>, e: Error) returns (full: seq<Parsed>)
    requires Reached(o, path) && RaisedFrom(o, path, e)
    ensures path <= full && Reached(o, full) && Complains(o, full, e)
    decreases 8 - |path|
  {
    hide PassesAlone, ClimbsAt, MayFollow, RaisedFrom, Complains;
    full := path;
    if PassesAlone(o, path, |path| - 1) && |path| <= 7 {
      RaisedUnfolds(o, path, e);
      if !Complains(o, path, e) {
        var c :| Ok(c) in o.intermediates && MayFollow(o, path, c) && RaisedFrom(o, path + [c], e);
        Extended(o, path, c);
        full := RaisedArises(o, path + [c], e);
      }
    } else {
      RaisedAtOnce(o, path, e);
    }
  }

  lemma {:induction false} ArisingIsRaised(o: ChainOptions, full: seq<Parsed>, k: nat, e: Error)
    requires Reached(o, full) && Complains(o, full, e) && 1 <= k <= |full|
    ensures RaisedFrom(o, full[..k], e)
    decreases |full| - k
  {
    hide PassesAlone, MayFollow, RaisedFrom, Complains;
    var path := full[..k];
    if k == |full| {
      assert path == full;
      if PassesAlone(o, full, k - 1) && k <= 7 {
        RaisedUnfolds(o, full, e);
      } else {
        RaisedAtOnce(o, full, e);
      }
    } else {
      ArisingIsRaised(o, full, k + 1, e);
      PassesBelow(o, full, k);
      assert ClimbsAt(o, full, k);
      assert full[..k + 1] == path + [full[k]];
      RaisedUnfolds(o, path, e);
    }
  }

  lemma PassesBelow(o: ChainOptions, full: seq<Parsed>, k: nat)
    requires Climbs(o, full) && 1 <= k < |full|
    ensures PassesAlone(o, full[..k], k - 1)
  {
    hide ValidAt, MayBeUsed, HasPurpose, ClimbsAt;
    assert PassesAlone(o, full, k - 1);
  }

  /** The errors of the tree of the search are those that arise on the paths it reaches. */
  lemma RaisedExactly(o: ChainOptions, endEntity: Parsed, e: Error)
    ensures e in Raised(o, Cert(endEntity, EndEntity), 0) <==> Arises(o, endEntity, e)
  {
    hide Raised, PassesAlone, ClimbsAt, Complains;
    var path := [endEntity];
    assert ChainOf(path) == Cert(endEntity, EndEntity);
    if RaisedFrom(o, path, e) {
      var full := RaisedArises(o, path, e);
      assert full[0] == endEntity;
    }
    forall full | Reached(o, full) && full[0] == endEntity && Complains(o, full, e)
      ensures RaisedFrom(o, path, e)
    {
      ArisingIsRaised(o, full, 1, e);
      assert full[..1] == path;
    }
  }

  /** The most specific error of the tree is the most specific one that arises. */
  lemma MostSpecificExactly(o: ChainOptions, endEntity: Parsed, e: Error)
    ensures MostSpecificOf(e, Raised(o, Cert(endEntity, EndEntity), 0)) <==> MostSpecificArising(o, endEntity, e)
  {
    hide Raised, Arises, Error.Rank;
    forall other
      ensures other in Raised(o, Cert(endEntity, EndEntity), 0) <==> Arises(o, endEntity, other)
    {
      RaisedExactly(o, endEntity, other);
    }
  }

  /** What is wrong with the end entity itself is reported at once. */
  lemma EndEntityFails(o: ChainOptions, endEntity: Parsed, e: Error, t: Tally)
    requires FailsWith(endEntity, o.time, false, 0, o.eku, e)
    ensures
      var r := Search(o, Cert(endEntity, EndEntity), 0, t);
      r.0 == Err(e) && r.1.signatures == t.signatures
  {
    hide CheckIssuerIndependentProperties, FailsWith;
    FailsExactly(endEntity, o.time, false, 0, o.eku, e);
  }
}
