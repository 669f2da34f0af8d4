/** The entry point, with what its whole run is proved to give (src/verify_cert.rs:136-138). */
module ChainBuilding {
  import opened Basics
  import opened Certificates
  import opened PathSearch
  import opened CertificateMeaning
  import opened PathComplaints
  import opened PathMeaning
  import opened PathOutcome
  import opened PathSpent
  import PathBounds
  import PathBudget

  /** `build_chain` */
  method BuildChain(o: ChainOptions, endEntity: Parsed) returns (res: Outcome, tally: Tally)
    requires !SearchAborts(o, Cert(endEntity, EndEntity), 0, Tally(0, 0, 0, 0))
    ensures (res, tally) == Search(o, Cert(endEntity, EndEntity), 0, Tally(0, 0, 0, 0))
    // it succeeds exactly with a valid path that is found within the budget
    ensures res.Ok? <==> HasValidPath(o, endEntity) && UpTo(o, Cert(endEntity, EndEntity), 0) <= 100
    // it fails, and reports the most specific error that arises on any path it reaches, only without one
    ensures res.Err? && tally.signatures <= 100 ==>
              !HasValidPath(o, endEntity) && MostSpecificArising(o, endEntity, res.error)
    // it reports what is wrong with the end entity itself before anything else
    ensures forall e :: FailsWith(endEntity, o.time, false, 0, o.eku, e) ==> res == Err(e) && tally.signatures == 0
    // it stays within its budget
    ensures tally.crlVerifies <= tally.certVerifies <= 100
    ensures tally.signatures > 100 ==> res.Err?
    // it reports a spent budget exactly when no later error replaces the report
    ensures res == Err(MaximumSignatureChecksExceeded) <==> ReportsFrom(o, Cert(endEntity, EndEntity), 0, 100)
    ensures tally.calls <= PathBounds.ArrangementsUpTo(|o.intermediates|, 7)
  {
    SearchWithinBudget(o, Cert(endEntity, EndEntity), 0, Tally(0, 0, 0, 0));
    SoundAndComplete(o, endEntity);
    ReportedExactly(o, Cert(endEntity, EndEntity), 0, Tally(0, 0, 0, 0));
    PathBudget.RunIsInBudget(o, endEntity);
    PathBounds.RunIsBounded(o, endEntity);
    forall e | FailsWith(endEntity, o.time, false, 0, o.eku, e)
      ensures Search(o, Cert(endEntity, EndEntity), 0, Tally(0, 0, 0, 0)).0 == Err(e)
      ensures Search(o, Cert(endEntity, EndEntity), 0, Tally(0, 0, 0, 0)).1.signatures == 0
    {
      EndEntityFails(o, endEntity, e, Tally(0, 0, 0, 0));
    }
    forall e
      ensures MostSpecificOf(e, Raised(o, Cert(endEntity, EndEntity), 0)) <==> MostSpecificArising(o, endEntity, e)
    {
      MostSpecificExactly(o, endEntity, e);
    }
    hide Search, SearchAborts, HasValidPath, Raised, UpTo, Accepts, ReportsFrom, MostSpecificOf, MostSpecificArising, FailsWith, PathBounds.ArrangementsUpTo;
    var counter := new Counter();
    res := BuildChainInner(o, Cert(endEntity, EndEntity), 0, counter);
    tally := counter.tally;
  }
}
