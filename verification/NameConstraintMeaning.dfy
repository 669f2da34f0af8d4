/** What it means that the names of a chain pass the name constraints (section 4.2.1.10 of RFC 5280). */
module NameConstraintMeaning {
  import opened Basics
  import opened Der
  import opened Certificates
  import opened DerMeaning
  import opened NameConstraints
  import opened NameComparison
  import opened NameMeaning

  // ----- one name and the bases of some subtrees

  /** The scan ends at this base: it is malformed, cannot be compared, or is excluded and holds the name. */
  ghost predicate Stops(subtrees: Subtrees, name: GeneralName, base: Result<GeneralName>) {
    || base.Err?
    || (SameForm(name, base.value)
        && (!Readable(name, base.value) || (subtrees.ExcludedSubtrees? && InSubtree(name, base.value, subtrees))))
  }

  ghost predicate StopsSomewhere(subtrees: Subtrees, name: GeneralName, bases: seq<Result<GeneralName>>) {
    exists base :: base in bases && Stops(subtrees, name, base)
  }

  /** The error it ends with there. */
  ghost function StoppedBy(name: GeneralName, base: Result<GeneralName>): Error {
    if base.Err? then base.error
    else if Readable(name, base.value) then NameConstraintViolation
    else Complaint(name)
  }

  ghost predicate SomeOfForm(name: GeneralName, bases: seq<Result<GeneralName>>) {
    exists base :: base in bases && base.Ok? && SameForm(name, base.value)
  }

  ghost predicate InSome(subtrees: Subtrees, name: GeneralName, bases: seq<Result<GeneralName>>) {
    exists base :: base in bases && base.Ok? && Holds(subtrees, name, base.value)
  }

  ghost predicate Holds(subtrees: Subtrees, name: GeneralName, base: GeneralName) {
    SameForm(name, base) && InSubtree(name, base, subtrees)
  }

  lemma Unroll(subtrees: Subtrees, name: GeneralName, bases: seq<Result<GeneralName>>)
    requires bases != []
    ensures StopsSomewhere(subtrees, name, bases) <==> Stops(subtrees, name, bases[0]) || StopsSomewhere(subtrees, name, bases[1..])
    ensures SomeOfForm(name, bases) <==> (bases[0].Ok? && SameForm(name, bases[0].value)) || SomeOfForm(name, bases[1..])
    ensures InSome(subtrees, name, bases) <==> (bases[0].Ok? && Holds(subtrees, name, bases[0].value)) || InSome(subtrees, name, bases[1..])
  {
    hide Stops, SameForm, Holds;
    assert forall base :: base in bases <==> base == bases[0] || base in bases[1..];
  }

  /** The flags of the loop remember whether a permitted base was of the form, and whether one held the name. */
  lemma {:induction false} ScanToTheEnd(subtrees: Subtrees, name: GeneralName, bases: seq<Result<GeneralName>>,
                                        hasMatch: bool, hasMismatch: bool)
    requires !StopsSomewhere(subtrees, name, bases)
    requires subtrees.ExcludedSubtrees? ==> !hasMatch && !hasMismatch
    ensures Scan(subtrees, name, bases, hasMatch, hasMismatch)
         == if subtrees.PermittedSubtrees? && !hasMatch && !InSome(subtrees, name, bases) && (hasMismatch || SomeOfForm(name, bases))
            then Some(NameConstraintViolation) else None
  {
    hide Compare, SameForm, Readable, InSubtree, StopsSomewhere, SomeOfForm, InSome;
    if bases == [] {
      assert !InSome(subtrees, name, bases) && !SomeOfForm(name, bases) by { NothingInNone(subtrees, name); }
    } else {
      Unroll(subtrees, name, bases);
      var base := bases[0].value;
      CompareExactly(name, base, subtrees);
      var matches := SameForm(name, base) && InSubtree(name, base, subtrees);
      if subtrees.PermittedSubtrees? && SameForm(name, base) {
        ScanToTheEnd(subtrees, name, bases[1..], hasMatch || matches, hasMismatch || !matches);
      } else {
        ScanToTheEnd(subtrees, name, bases[1..], hasMatch, hasMismatch);
      }
    }
  }

  lemma NothingInNone(subtrees: Subtrees, name: GeneralName)
    ensures !InSome(subtrees, name, []) && !SomeOfForm(name, [])
  {
  }

  /** Otherwise the first base at which it stops decides the error. */
  lemma {:induction false} ScanStops(subtrees: Subtrees, name: GeneralName, bases: seq<Result<GeneralName>>,
                                     hasMatch: bool, hasMismatch: bool, i: nat)
    requires i < |bases| && Stops(subtrees, name, bases[i]) && !StopsSomewhere(subtrees, name, bases[..i])
    ensures Scan(subtrees, name, bases, hasMatch, hasMismatch) == Some(StoppedBy(name, bases[i]))
    decreases i
  {
    hide Compare, SameForm, Readable, InSubtree, StopsSomewhere;
    if bases[0].Ok? {
      CompareExactly(name, bases[0].value, subtrees);
    }
    if i > 0 {
      Unroll(subtrees, name, bases[..i]);
      assert bases[..i][1..] == bases[1..][..i - 1];
      var base := bases[0].value;
      var matches := SameForm(name, base) && InSubtree(name, base, subtrees);
      if subtrees.PermittedSubtrees? && SameForm(name, base) {
        ScanStops(subtrees, name, bases[1..], hasMatch || matches, hasMismatch || !matches, i - 1);
      } else {
        ScanStops(subtrees, name, bases[1..], hasMatch, hasMismatch, i - 1);
      }
    }
  }

  lemma {:induction false} FirstStop(subtrees: Subtrees, name: GeneralName, bases: seq<Result<GeneralName>>) returns (i: nat)
    requires StopsSomewhere(subtrees, name, bases)
    ensures i < |bases| && Stops(subtrees, name, bases[i]) && !StopsSomewhere(subtrees, name, bases[..i])
  {
    hide Stops;
    i := 0;
    while !Stops(subtrees, name, bases[i])
      invariant i < |bases| && !StopsSomewhere(subtrees, name, bases[..i])
      decreases |bases| - i
    {
      assert bases[..i + 1] == bases[..i] + [bases[i]];
      assert bases == bases[..i + 1] + bases[i + 1..];
      i := i + 1;
    }
  }

  lemma ScanExactly(subtrees: Subtrees, name: GeneralName, bases: seq<Result<GeneralName>>)
    ensures Scan(subtrees, name, bases, false, false) == None
       <==> && !StopsSomewhere(subtrees, name, bases)
            && (subtrees.PermittedSubtrees? && SomeOfForm(name, bases) ==> InSome(subtrees, name, bases))
  {
    hide Scan, StopsSomewhere, SomeOfForm, InSome;
    if StopsSomewhere(subtrees, name, bases) {
      var i := FirstStop(subtrees, name, bases);
      ScanStops(subtrees, name, bases, false, false, i);
    } else {
      ScanToTheEnd(subtrees, name, bases, false, false);
    }
  }

  // ----- one name and all subtrees

  /** The name can be compared with every base of its form. */
  ghost predicate AllReadable(name: GeneralName, bases: seq<GeneralName>) {
    forall base :: base in bases && SameForm(name, base) ==> Readable(name, base)
  }

  /** It lies in a permitted subtree, if there is one for its form. */
  ghost predicate Permitted(name: GeneralName, bases: seq<GeneralName>) {
    (exists base :: base in bases && SameForm(name, base))
    ==> exists base :: base in bases && Holds(PermittedSubtrees, name, base)
  }

  /** It lies in no excluded subtree. */
  ghost predicate NotExcluded(name: GeneralName, bases: seq<GeneralName>) {
    forall base :: base in bases ==> !Holds(ExcludedSubtrees, name, base)
  }

  /** The fields encode bases with all of which the name agrees. */
  ghost predicate Conforms(name: GeneralName, permitted: Option<Bytes>, excluded: Option<Bytes>) {
    exists p, e ::
      && GivesBases(permitted, p) && GivesBases(excluded, e)
      && AllReadable(name, p) && AllReadable(name, e)
      && Permitted(name, p) && NotExcluded(name, e)
  }

  lemma OverBases(subtrees: Subtrees, name: GeneralName, bases: seq<GeneralName>)
    ensures StopsSomewhere(subtrees, name, Oks(bases))
       <==> !AllReadable(name, bases) || (subtrees.ExcludedSubtrees? && !NotExcluded(name, bases))
    ensures SomeOfForm(name, Oks(bases)) <==> exists base :: base in bases && SameForm(name, base)
    ensures InSome(subtrees, name, Oks(bases)) <==> exists base :: base in bases && Holds(subtrees, name, base)
  {
    hide SameForm, Readable, InSubtree, Oks;
    forall base
      ensures base in bases <==> Ok(base) in Oks(bases)
    {
      MemberOfOks(bases, base);
    }
    forall item | item in Oks(bases)
      ensures item.Ok? && item.value in bases && item == Ok(item.value)
    {
      OnlyOks(bases, item);
    }
  }

  /** All bases can be read, or the scan meets one that cannot. */
  lemma ReadBases(constraints: Option<Bytes>) returns (bases: seq<GeneralName>)
    ensures Bases(constraints) == Oks(bases) || exists item :: item in Bases(constraints) && item.Err?
  {
    hide Bases, Oks;
    bases := AsOks(Bases(constraints));
  }

  /** A name is accepted exactly when it conforms. */
  lemma NameConforms(name: GeneralName, permitted: Option<Bytes>, excluded: Option<Bytes>)
    ensures CheckPresentedName(name, permitted, excluded) == None <==> Conforms(name, permitted, excluded)
  {
    hide Scan, StopsSomewhere, SomeOfForm, InSome, Bases, Oks, AllReadable, Permitted, NotExcluded, GivesBases;
    ScanExactly(PermittedSubtrees, name, Bases(permitted));
    ScanExactly(ExcludedSubtrees, name, Bases(excluded));
    if CheckPresentedName(name, permitted, excluded) == None {
      var p := ReadUnstopped(PermittedSubtrees, name, permitted);
      var e := ReadUnstopped(ExcludedSubtrees, name, excluded);
      BasesConform(name, permitted, excluded, p, e);
    }
    forall p, e | GivesBases(permitted, p) && GivesBases(excluded, e)
      ensures Bases(permitted) == Oks(p) && Bases(excluded) == Oks(e)
      ensures CheckPresentedName(name, permitted, excluded) == None
         <==> AllReadable(name, p) && AllReadable(name, e) && Permitted(name, p) && NotExcluded(name, e)
    {
      BasesConform(name, permitted, excluded, p, e);
    }
  }

  lemma ReadUnstopped(subtrees: Subtrees, name: GeneralName, constraints: Option<Bytes>) returns (bases: seq<GeneralName>)
    requires !StopsSomewhere(subtrees, name, Bases(constraints))
    ensures GivesBases(constraints, bases)
  {
    hide Bases, Oks, GivesBases, SameForm, Readable, InSubtree;
    bases := ReadBases(constraints);
    BasesExactly(constraints, bases);
  }

  lemma BasesConform(name: GeneralName, permitted: Option<Bytes>, excluded: Option<Bytes>, p: seq<GeneralName>, e: seq<GeneralName>)
    requires GivesBases(permitted, p) && GivesBases(excluded, e)
    ensures Bases(permitted) == Oks(p) && Bases(excluded) == Oks(e)
    ensures CheckPresentedName(name, permitted, excluded) == None
       <==> AllReadable(name, p) && AllReadable(name, e) && Permitted(name, p) && NotExcluded(name, e)
  {
    hide Scan, StopsSomewhere, SomeOfForm, InSome, Bases, Oks, AllReadable, NotExcluded, GivesBases;
    BasesExactly(permitted, p);
    BasesExactly(excluded, e);
    ScanExactly(PermittedSubtrees, name, Oks(p));
    ScanExactly(ExcludedSubtrees, name, Oks(e));
    OverBases(PermittedSubtrees, name, p);
    OverBases(ExcludedSubtrees, name, e);
  }

  /** When all bases can be read and compared, the only complaint is that the name does not conform. */
  lemma ViolationExactly(name: GeneralName, permitted: Option<Bytes>, excluded: Option<Bytes>, p: seq<GeneralName>, e: seq<GeneralName>)
    requires GivesBases(permitted, p) && GivesBases(excluded, e) && AllReadable(name, p) && AllReadable(name, e)
    ensures CheckPresentedName(name, permitted, excluded)
         == if Permitted(name, p) && NotExcluded(name, e) then None else Some(NameConstraintViolation)
  {
    hide Scan, StopsSomewhere, SomeOfForm, InSome, Bases, Oks, AllReadable, Permitted, NotExcluded, GivesBases;
    BasesConform(name, permitted, excluded, p, e);
    OnlyViolations(PermittedSubtrees, name, p);
    OnlyViolations(ExcludedSubtrees, name, e);
  }

  lemma OnlyViolations(subtrees: Subtrees, name: GeneralName, bases: seq<GeneralName>)
    requires AllReadable(name, bases)
    ensures Scan(subtrees, name, Oks(bases), false, false) in {None, Some(NameConstraintViolation)}
  {
    hide Scan, StopsSomewhere, SomeOfForm, InSome, Oks, SameForm, Readable, InSubtree, NotExcluded;
    if StopsSomewhere(subtrees, name, Oks(bases)) {
      var i := FirstStop(subtrees, name, Oks(bases));
      ScanStops(subtrees, name, Oks(bases), false, false, i);
      OnlyOks(bases, Oks(bases)[i]);
    } else {
      ScanToTheEnd(subtrees, name, Oks(bases), false, false);
    }
  }

  // ----- the chain

  /** The certificate itself or one below it. */
  predicate InChain(c: Parsed, cert: Cert) {
    c == cert.own || (cert.eeOrCa.Ca? && InChain(c, cert.eeOrCa.child))
  }

  /** The certificate gives names, and all of them conform. */
  ghost predicate AllNamesConform(c: Parsed, permitted: Option<Bytes>, excluded: Option<Bytes>,
                                  contents: SubjectCommonNameContents)
  {
    exists names ::
      && GivesNames(c.subject, c.subjectAltName, contents, names)
      && forall name :: name in names ==> Conforms(name, permitted, excluded)
  }

  lemma {:induction false} NamesConform(names: seq<Result<GeneralName>>, permitted: Option<Bytes>, excluded: Option<Bytes>)
    ensures CheckNames(names, permitted, excluded).Ok?
       <==> forall i :: 0 <= i < |names| ==> names[i].Ok? && Conforms(names[i].value, permitted, excluded)
  {
    hide Conforms, CheckPresentedName;
    if names != [] {
      NamesConform(names[1..], permitted, excluded);
      assert forall i :: 1 <= i < |names| ==> names[i] == names[1..][i - 1];
      if names[0].Ok? {
        NameConforms(names[0].value, permitted, excluded);
      }
    }
  }

  lemma CertificateConforms(c: Parsed, permitted: Option<Bytes>, excluded: Option<Bytes>, contents: SubjectCommonNameContents)
    ensures CheckNames(NamesOf(Some(c.subject), c.subjectAltName, contents), permitted, excluded).Ok?
       <==> AllNamesConform(c, permitted, excluded, contents)
  {
    hide CheckNames, NamesOf, Conforms, GivesNames, Oks;
    var items := NamesOf(Some(c.subject), c.subjectAltName, contents);
    NamesConform(items, permitted, excluded);
    var all := AsOks(items);
    NamesExactly(c.subject, c.subjectAltName, contents, all);
    forall names | GivesNames(c.subject, c.subjectAltName, contents, names)
      ensures items == Oks(names)
    {
      NamesExactly(c.subject, c.subjectAltName, contents, names);
    }
    forall names, name | items == Oks(names)
      ensures name in names <==> Ok(name) in items
    {
      MemberOfOks(names, name);
    }
    forall names, i | items == Oks(names) && 0 <= i < |items|
      ensures items[i].Ok? && items[i].value in names
    {
      OnlyOks(names, items[i]);
    }
  }

  lemma {:induction false} ChainConforms(cert: Cert, permitted: Option<Bytes>, excluded: Option<Bytes>,
                                         contents: SubjectCommonNameContents)
    ensures CheckChain(cert, permitted, excluded, contents).Ok?
       <==> forall c :: InChain(c, cert) ==> AllNamesConform(c, permitted, excluded, contents)
    decreases cert
  {
    hide CheckNames, AllNamesConform, NamesOf;
    CertificateConforms(cert.own, permitted, excluded, contents);
    assert InChain(cert.own, cert);
    if cert.eeOrCa.Ca? {
      ChainConforms(cert.eeOrCa.child, permitted, excluded, contents);
      assert forall c :: InChain(c, cert.eeOrCa.child) ==> InChain(c, cert);
    }
  }

  /** Name constraints hold on a chain exactly when their value is well formed and every name that
      any certificate of the chain yields can be read and conforms to the subtrees. */
  lemma NameConstraintsMeaning(value: Bytes, cert: Cert, contents: SubjectCommonNameContents)
    ensures CheckNameConstraints(Some(value), cert, contents).Ok?
       <==> exists permitted, excluded ::
              && HasSubtrees(value, permitted, excluded)
              && forall c :: InChain(c, cert) ==> AllNamesConform(c, permitted, excluded, contents)
  {
    hide ParseSubtrees, CheckChain, AllNamesConform, InChain, HasSubtrees;
    var p := ParseSubtrees(value, TAG_CONTEXT_CONSTRUCTED_0);
    var e := ParseSubtrees(value[p.used..], TAG_CONTEXT_CONSTRUCTED_1);
    if p.result.Ok? && e.result.Ok? {
      ChainConforms(cert, p.result.value, e.result.value, contents);
      HasSubtreesExactly(value, p.result.value, e.result.value);
    }
    forall permitted, excluded | HasSubtrees(value, permitted, excluded)
      ensures p.result == Ok(permitted) && e.result == Ok(excluded) && p.used + e.used == |value|
    {
      HasSubtreesExactly(value, permitted, excluded);
    }
  }

  // ----- what else is reported

  ghost predicate NameIsReadable(name: GeneralName, permitted: Option<Bytes>, excluded: Option<Bytes>) {
    exists p, e :: GivesBases(permitted, p) && GivesBases(excluded, e) && AllReadable(name, p) && AllReadable(name, e)
  }

  /** The certificate gives names, and all of them can be compared with all bases of their forms. */
  ghost predicate AllNamesReadable(c: Parsed, permitted: Option<Bytes>, excluded: Option<Bytes>, contents: SubjectCommonNameContents) {
    exists names ::
      && GivesNames(c.subject, c.subjectAltName, contents, names)
      && forall name :: name in names ==> NameIsReadable(name, permitted, excluded)
  }

  predicate PassesOrViolates(r: Outcome) {
    r == DONE || r == Err(NameConstraintViolation)
  }

  lemma {:induction false} NamesPassOrViolate(names: seq<GeneralName>, permitted: Option<Bytes>, excluded: Option<Bytes>)
    requires forall name :: name in names ==> NameIsReadable(name, permitted, excluded)
    ensures PassesOrViolates(CheckNames(Oks(names), permitted, excluded))
  {
    hide CheckPresentedName, Oks, GivesBases, AllReadable;
    if names == [] {
      assert |Oks(names)| == 0;
    } else {
      assert NameIsReadable(names[0], permitted, excluded);
      var p, e :| GivesBases(permitted, p) && GivesBases(excluded, e) && AllReadable(names[0], p) && AllReadable(names[0], e);
      ViolationExactly(names[0], permitted, excluded, p, e);
      OksStep(names);
      NamesPassOrViolate(names[1..], permitted, excluded);
    }
  }

  /** When the value is well formed and everything can be read and compared, the only complaint is that
      some name does not conform. */
  lemma {:induction false} ChainPassesOrViolates(cert: Cert, permitted: Option<Bytes>, excluded: Option<Bytes>, contents: SubjectCommonNameContents)
    requires forall c :: InChain(c, cert) ==> AllNamesReadable(c, permitted, excluded, contents)
    ensures PassesOrViolates(CheckChain(cert, permitted, excluded, contents))
    decreases cert
  {
    hide CheckNames, NamesOf, Oks, GivesNames, NameIsReadable;
    var own := cert.own;
    assert InChain(own, cert);
    var names :| GivesNames(own.subject, own.subjectAltName, contents, names)
              && forall name :: name in names ==> NameIsReadable(name, permitted, excluded);
    NamesExactly(own.subject, own.subjectAltName, contents, names);
    NamesPassOrViolate(names, permitted, excluded);
    if cert.eeOrCa.Ca? {
      forall c | InChain(c, cert.eeOrCa.child)
        ensures AllNamesReadable(c, permitted, excluded, contents)
      {
        assert InChain(c, cert);
      }
      ChainPassesOrViolates(cert.eeOrCa.child, permitted, excluded, contents);
    }
  }

  lemma ConstraintsPassOrViolate(value: Bytes, cert: Cert, contents: SubjectCommonNameContents,
                                 permitted: Option<Bytes>, excluded: Option<Bytes>)
    requires HasSubtrees(value, permitted, excluded)
    requires forall c :: InChain(c, cert) ==> AllNamesReadable(c, permitted, excluded, contents)
    ensures PassesOrViolates(CheckNameConstraints(Some(value), cert, contents))
  {
    hide ParseSubtrees, CheckChain, AllNamesReadable, InChain, HasSubtrees;
    HasSubtreesExactly(value, permitted, excluded);
    ChainPassesOrViolates(cert, permitted, excluded, contents);
  }
}
