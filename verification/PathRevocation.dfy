/** What revocation checking guarantees for an accepted path (src/verify_cert.rs:307-398, src/crl.rs:766-839). */
module PathRevocation {
  import opened Basics
  import opened Certificates
  import opened PathSearch
  import opened PathMeaning
  import opened RevocationStatus

  ghost predicate ClearedAt(o: ChainOptions, rev: RevocationOptions, path: seq<Parsed>, anchor: TrustAnchor, k: nat)
    requires k < |path|
  {
    exists crl :: crl in rev.crls
               && Clears(o, crl, ChainOf(path[..k + 1]), KeyAbove(path, k, anchor.spki), KeyUsageAbove(path, k, None))
  }

  /** With the whole chain checked and no status left unknown, every certificate of a valid path is
      cleared by a supplied CRL that the key directly above it has signed. */
  lemma ValidPathsAreCleared(o: ChainOptions, rev: RevocationOptions, path: seq<Parsed>, anchor: TrustAnchor)
    requires o.revocation == Some(rev) && rev.depth.Chain? && rev.statusRequirement.Deny?
    requires ValidPath(o, path, anchor)
    ensures forall k :: 0 <= k < |path| ==> ClearedAt(o, rev, path, anchor, k)
  {
    hide PassesAlone, ClimbsAt, NamesAllowed, Clears, StatusKnown;
    forall k | 0 <= k < |path|
      ensures ClearedAt(o, rev, path, anchor, k)
    {
      assert SignedAt(o, path, k, anchor.spki, None);
      var crl := KnownMeansCleared(o, rev, ChainOf(path[..k + 1]), KeyAbove(path, k, anchor.spki), KeyUsageAbove(path, k, None));
    }
  }

  lemma AcceptedChainsAreCleared(o: ChainOptions, rev: RevocationOptions, endEntity: Parsed)
    requires o.revocation == Some(rev) && rev.depth.Chain? && rev.statusRequirement.Deny?
    requires Search(o, Cert(endEntity, EndEntity), 0, Tally(0, 0, 0, 0)).0.Ok?
    ensures exists path, anchor ::
              && ValidPath(o, path, anchor) && path[0] == endEntity
              && forall k :: 0 <= k < |path| ==> ClearedAt(o, rev, path, anchor, k)
  {
    SoundAndComplete(o, endEntity);
    hide Search;
    var path, anchor :| ValidPath(o, path, anchor) && path[0] == endEntity;
    hide ValidPath, ClearedAt;
    ValidPathsAreCleared(o, rev, path, anchor);
  }
}
