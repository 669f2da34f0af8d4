/** Loop prevention loses no path between CA certificates (src/verify_cert.rs:222-240). */
module PathLoops {
  import opened Basics
  import opened Certificates
  import opened CertificateMeaning
  import opened Crl
  import opened NameConstraints
  import opened NameConstraintMeaning
  import opened NameMeaning
  import opened PathSearch
  import opened PathMeaning

  ghost predicate FollowsAt(o: ChainOptions, path: seq<Parsed>, k: nat)
    requires 0 < k < |path|
  {
    && Ok(path[k]) in o.intermediates
    && path[k].subject == path[k - 1].issuer
    && NamesAllowed(o, path[k].nameConstraints, path[..k])
  }

  /** Everything that makes a path valid, except that key and subject may repeat. */
  ghost predicate ValidButRepeats(o: ChainOptions, path: seq<Parsed>, anchor: TrustAnchor) {
    && 1 <= |path| <= 7
    && anchor in o.trustAnchors
    && (forall k :: 0 <= k < |path| ==> PassesAlone(o, path, k))
    && (forall k :: 0 < k < |path| ==> FollowsAt(o, path, k))
    && AnchorHolds(o, path, anchor)
  }

  predicate RepeatAt(path: seq<Parsed>, i: int, j: int) {
    0 <= i < j < |path| && SameKeyAndSubject(path[j], path[i])
  }

  /** Key and subject repeat between CA certificates only; above the first intermediate only when the
      common name of a server matters, and with the same key usage when revocation is checked. */
  ghost predicate HarmlessRepeats(o: ChainOptions, path: seq<Parsed>) {
    forall i, j :: RepeatAt(path, i, j) ==>
      && i >= 1
      && (o.eku.oid == [43, 6, 1, 5, 5, 7, 3, 1] ==> i >= 2)
      && (o.revocation.Some? ==> path[i].keyUsage == path[j].keyUsage)
  }

  lemma RepeatsBelow(path: seq<Parsed>, k: nat)
    requires k < |path|
    ensures Repeats(path[k], path[..k]) <==> exists i :: RepeatAt(path, i, k)
  {
    var below := path[..k];
    assert forall i :: 0 <= i < k ==> below[i] == path[i];
    if i :| 0 <= i < k && path[k].spki == below[i].spki && path[k].subject == below[i].subject {
      assert RepeatAt(path, i, k);
    }
    if i :| RepeatAt(path, i, k) {
      assert below[i] == path[i];
    }
  }

  lemma ClimbsWithoutRepeat(o: ChainOptions, path: seq<Parsed>, k: nat)
    requires 0 < k < |path|
    ensures ClimbsAt(o, path, k) <==> FollowsAt(o, path, k) && !exists i :: RepeatAt(path, i, k)
  {
    hide NamesAllowed, SameKeyAndSubject, Repeats, RepeatAt;
    RepeatsBelow(path, k);
  }

  lemma ValidWithoutRepeats(o: ChainOptions, path: seq<Parsed>, anchor: TrustAnchor)
    ensures ValidPath(o, path, anchor) <==>
            ValidButRepeats(o, path, anchor) && forall i, j :: !RepeatAt(path, i, j)
  {
    hide PassesAlone, AnchorHolds, SameKeyAndSubject, ClimbsAt, FollowsAt;
    forall k | 0 < k < |path|
      ensures ClimbsAt(o, path, k) <==> FollowsAt(o, path, k) && !exists i :: RepeatAt(path, i, k)
    {
      ClimbsWithoutRepeat(o, path, k);
    }
    if ValidPath(o, path, anchor) {
      forall i, j
        ensures !RepeatAt(path, i, j)
      {
        assert 0 < j < |path| ==> ClimbsAt(o, path, j);
      }
    }
  }

  // ----- cutting a loop out

  /** The lower of the two certificates, and what lies between them, is left out. */
  function Cut(path: seq<Parsed>, i: nat, j: nat): seq<Parsed>
    requires i < j < |path|
  {
    path[..i] + path[j..]
  }

  lemma NamesOfFewer(o: ChainOptions, constraints: Option<Bytes>, more: seq<Parsed>, fewer: seq<Parsed>)
    requires NamesAllowed(o, constraints, more)
    requires (forall c :: c in fewer ==> c in more) && ContentsFor(o, more) == ContentsFor(o, fewer)
    ensures NamesAllowed(o, constraints, fewer)
  {
    hide HasSubtrees, AllNamesConform;
  }

  lemma {:induction false} SameCrl(crls: seq<RevocationList>, cert: Cert, other: Cert)
    requires cert.own == other.own && cert.UsedAsCa() == other.UsedAsCa()
    ensures FirstAuthoritative(crls, cert) == FirstAuthoritative(crls, other)
  {
    hide FirstPointHasFirstUri, FullNameOf, GeneralNames;
    if crls != [] {
      SameCrl(crls[1..], cert, other);
    }
  }

  /** Of the chain below, signature and revocation status depend on whether there is one only. */
  lemma SameStatus(o: ChainOptions, cert: Cert, other: Cert, spki: Bytes, keyUsage: Option<Bytes>)
    requires cert.own == other.own && cert.UsedAsCa() == other.UsedAsCa()
    ensures CheckSigned(o, cert, spki, keyUsage) == CheckSigned(o, other, spki, keyUsage)
  {
    hide FirstAuthoritative, UseCrl;
    if o.revocation.Some? {
      SameCrl(o.revocation.value.crls, cert, other);
    }
  }

  lemma KeyUsageForRevocation(o: ChainOptions, cert: Cert, spki: Bytes, keyUsage: Option<Bytes>, other: Option<Bytes>)
    requires o.revocation.Some? ==> keyUsage == other
    ensures CheckSigned(o, cert, spki, keyUsage) == CheckSigned(o, cert, spki, other)
  {
    hide CheckCrls;
  }

  lemma CutPassesAlone(o: ChainOptions, path: seq<Parsed>, i: nat, j: nat, k: nat)
    requires 1 <= i < j < |path| && k < |Cut(path, i, j)|
    requires forall m :: 0 <= m < |path| ==> PassesAlone(o, path, m)
    ensures PassesAlone(o, Cut(path, i, j), k)
  {
    hide ValidAt, HasPurpose, IsBasicConstraints;
    assert PassesAlone(o, path, if k < i then k else k + j - i);
  }

  lemma CutFollows(o: ChainOptions, path: seq<Parsed>, i: nat, j: nat, k: nat)
    requires 1 <= i && RepeatAt(path, i, j) && (o.eku.oid == [43, 6, 1, 5, 5, 7, 3, 1] ==> i >= 2)
    requires forall m :: 0 < m < |path| ==> FollowsAt(o, path, m)
    requires 0 < k < |Cut(path, i, j)|
    ensures FollowsAt(o, Cut(path, i, j), k)
  {
    hide NamesAllowed;
    var cut := Cut(path, i, j);
    var m := if k < i then k else k + j - i;
    assert FollowsAt(o, path, m) && cut[k] == path[m];
    if k < i {
      assert cut[..k] == path[..k];
    } else {
      assert FollowsAt(o, path, i);
      forall c | c in cut[..k]
        ensures c in path[..m]
      {
        var at :| 0 <= at < k && cut[at] == c;
        assert c == path[..m][if at < i then at else at + j - i];
      }
      NamesOfFewer(o, path[m].nameConstraints, path[..m], cut[..k]);
    }
  }

  lemma CutIsSigned(o: ChainOptions, path: seq<Parsed>, i: nat, j: nat, spki: Bytes, keyUsage: Option<Bytes>, k: nat)
    requires 1 <= i && RepeatAt(path, i, j) && (o.revocation.Some? ==> path[i].keyUsage == path[j].keyUsage)
    requires AllSigned(o, path, spki, keyUsage) && k < |Cut(path, i, j)|
    ensures SignedAt(o, Cut(path, i, j), k, spki, keyUsage)
  {
    hide CheckSigned, SignedAt;
    var cut := Cut(path, i, j);
    var m := if k < i then k else k + j - i;
    assert SignedAt(o, path, m, spki, keyUsage);
    SignedAtExactly(o, path, m, spki, keyUsage);
    SignedAtExactly(o, cut, k, spki, keyUsage);
    SameStatus(o, ChainOf(path[..m + 1]), ChainOf(cut[..k + 1]), KeyAbove(path, m, spki), KeyUsageAbove(path, m, keyUsage));
    KeyUsageForRevocation(o, ChainOf(cut[..k + 1]), KeyAbove(path, m, spki), KeyUsageAbove(path, m, keyUsage), KeyUsageAbove(cut, k, keyUsage));
  }

  lemma CutIsValidButRepeats(o: ChainOptions, path: seq<Parsed>, anchor: TrustAnchor, i: nat, j: nat)
    requires ValidButRepeats(o, path, anchor) && HarmlessRepeats(o, path) && RepeatAt(path, i, j)
    ensures ValidButRepeats(o, Cut(path, i, j), anchor)
  {
    hide PassesAlone, FollowsAt, SignedAt, NamesAllowed, SameKeyAndSubject;
    var cut := Cut(path, i, j);
    forall k | 0 <= k < |cut|
      ensures PassesAlone(o, cut, k) && SignedAt(o, cut, k, anchor.spki, None)
    {
      CutPassesAlone(o, path, i, j, k);
      CutIsSigned(o, path, i, j, anchor.spki, None, k);
    }
    forall k | 0 < k < |cut|
      ensures FollowsAt(o, cut, k)
    {
      CutFollows(o, path, i, j, k);
    }
    NamesOfFewer(o, anchor.nameConstraints, path, cut);
  }

  /** Where the certificate at `k` of the cut path stood before. */
  function Before(i: nat, j: nat, k: int): int {
    if k < i then k else k + j - i
  }

  lemma RepeatBeforeCut(path: seq<Parsed>, i: nat, j: nat, a: int, b: int)
    requires i < j < |path| && RepeatAt(Cut(path, i, j), a, b)
    ensures RepeatAt(path, Before(i, j, a), Before(i, j, b))
    ensures Cut(path, i, j)[a] == path[Before(i, j, a)] && Cut(path, i, j)[b] == path[Before(i, j, b)]
  {
    hide SameKeyAndSubject;
  }

  lemma CutIsHarmless(o: ChainOptions, path: seq<Parsed>, i: nat, j: nat)
    requires HarmlessRepeats(o, path) && RepeatAt(path, i, j)
    ensures HarmlessRepeats(o, Cut(path, i, j))
  {
    var cut := Cut(path, i, j);
    hide SameKeyAndSubject, Cut;
    forall a, b | RepeatAt(cut, a, b)
      ensures a >= 1 && (o.eku.oid == [43, 6, 1, 5, 5, 7, 3, 1] ==> a >= 2)
      ensures 0 <= b < |cut| && a < |cut| && (o.revocation.Some? ==> cut[a].keyUsage == cut[b].keyUsage)
    {
      RepeatBeforeCut(path, i, j, a, b);
    }
  }

  /** A path that meets every other condition and whose repetitions are harmless can be cut down to
      a valid one for the same end entity and anchor. */
  lemma {:induction false} CutRepeats(o: ChainOptions, path: seq<Parsed>, anchor: TrustAnchor) returns (cut: seq<Parsed>)
    requires ValidButRepeats(o, path, anchor) && HarmlessRepeats(o, path)
    ensures ValidPath(o, cut, anchor) && cut[0] == path[0] && |cut| <= |path|
    decreases |path|
  {
    if i, j :| RepeatAt(path, i, j) {
      CutIsValidButRepeats(o, path, anchor, i, j);
      CutIsHarmless(o, path, i, j);
      hide ValidButRepeats, ValidPath, RepeatAt;
      assert 1 <= i < j < |path|;
      cut := CutRepeats(o, Cut(path, i, j), anchor);
    } else {
      ValidWithoutRepeats(o, path, anchor);
      cut := path;
    }
  }

  /** So a search that still fails on such a path has run out of its budget. */
  lemma LoopPreventionLosesNothing(o: ChainOptions, path: seq<Parsed>, anchor: TrustAnchor)
    requires ValidButRepeats(o, path, anchor) && HarmlessRepeats(o, path)
    ensures
      var r := Search(o, Cert(path[0], EndEntity), 0, Tally(0, 0, 0, 0));
      r.0.Ok? || r.1.signatures > 100
  {
    hide ValidPath, Search;
    var cut := CutRepeats(o, path, anchor);
    SoundAndComplete(o, path[0]);
  }
}
