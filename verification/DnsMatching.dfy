/** Comparing presented DNS names with references and with constraints (src/subject_name/dns_name.rs). */
module DnsMatching {
  import opened Basics
  import opened Readers
  import opened DnsNames

  /** Equality up to the case of ASCII letters. */
  predicate SameName(a: Bytes, b: Bytes) {
    |a| == |b| && forall i :: 0 <= i < |a| ==> AsciiLower(a[i]) == AsciiLower(b[i])
  }

  predicate EndsWith(name: Bytes, suffix: Bytes) {
    |suffix| <= |name| && SameName(name[|name| - |suffix|..], suffix)
  }

  function WithoutTrailingDot(reference: Bytes): Bytes {
    if reference != [] && reference[|reference| - 1] == DOT then reference[..|reference| - 1] else reference
  }

  /** A byte, whatever it is, and then no dot in front of `k`: what the loop over the reference skips. */
  predicate SkipsTo(name: Bytes, k: nat) {
    1 <= k < |name| && forall j :: 1 <= j < k ==> name[j] != DOT
  }

  /** `presented` is "*.S" and `name` is ".S" behind what the loop skips. In a reference that is one
      non-empty label (`DnsCoverage.WildcardStandsForOneLabel`); in a constraint it may be a leading dot
      and the label behind it. */
  predicate WildcardCovers(presented: Bytes, name: Bytes) {
    presented != [] && presented[0] == STAR
    && exists k :: 1 <= k < |name| && SkipsTo(name, k) && SameName(presented[1..], name[k..])
  }

  /** What a presented name stands for: itself, or a name with a label in place of its wildcard. */
  predicate MatchesReference(presented: Bytes, reference: Bytes) {
    var name := WithoutTrailingDot(reference);
    SameName(presented, name) || WildcardCovers(presented, name)
  }

  /** The comparison with a constraint that the code makes. */
  predicate MatchesConstraint(presented: Bytes, base: Bytes) {
    if |presented| > |base| then
      || base == []
      || (EndsWith(presented, base) && (base[0] == DOT || presented[|presented| - |base| - 1] == DOT))
    else
      SameName(presented, base) || WildcardCovers(presented, base)
  }

  function Matches(presented: Bytes, role: IdRole, reference: Bytes): Result<bool>
    requires role != Presented
  {
    if !ValidDnsId(presented, Presented, true) then Err(MalformedDnsIdentifier)
    else if !ValidDnsId(reference, role, false) then
      Err(if role == NameConstraint then MalformedNameConstraint else MalformedDnsIdentifier)
    else if role == NameConstraint then Ok(MatchesConstraint(presented, reference))
    else Ok(MatchesReference(presented, reference))
  }

  /** The answer is an error exactly when one of the names is invalid; which, depends on the first that is. */
  lemma InvalidNames(presented: Bytes, role: IdRole, reference: Bytes)
    requires role != Presented
    ensures
      var answer := Matches(presented, role, reference);
      var presentedOk, referenceOk := ValidDnsId(presented, Presented, true), ValidDnsId(reference, role, false);
      && (answer == Err(MalformedDnsIdentifier) <==> !presentedOk || (!referenceOk && role == Reference))
      && (answer == Err(MalformedNameConstraint) <==> presentedOk && !referenceOk && role == NameConstraint)
      && (answer.Ok? <==> presentedOk && referenceOk)
  {
    hide ValidDnsId, MatchesConstraint, MatchesReference;
  }

  // ----- what validity gives the two cursors

  lemma EdgesOfLabels(name: Bytes)
    requires name != []
    ensures name[0] == DOT <==> Split(name)[0] == [] && |Split(name)| > 1
    ensures name[|name| - 1] == DOT <==> Split(name)[|Split(name)| - 1] == []
    ensures name[0] != DOT ==> Split(name)[0] != [] && Split(name)[0][0] == name[0]
  {
    SplitStep(name, 0);
    assert name[..0] == [];
    SplitOfPrefix(name, 1);
    SplitStep(name, |name| - 1);
    assert name[..|name|] == name;
    OnlyTheEmptyNameHasNoByte(name);
    assert Split([]) == [[]];
  }

  /** A presented name begins neither with a dot nor ends with one, and has a star only in front. */
  lemma PresentedShape(name: Bytes)
    requires ValidDnsId(name, Presented, true)
    ensures name != [] && name[0] != DOT && name[|name| - 1] != DOT
    ensures name[0] == STAR ==> |name| >= 2 && name[1] == DOT
    ensures forall i :: 1 <= i < |name| ==> name[i] != STAR
  {
    OnlyTheEmptyNameHasNoByte(name);
    assert name != [];
    EdgesOfLabels(name);
    if name[0] == STAR && (|name| < 2 || name[1] != DOT) {
      WildcardNeedsDot(name, Presented);
    }
    forall i | 1 <= i < |name|
      ensures name[i] != STAR
    {
      if name[i] == STAR {
        StarInside(name, i, Presented, true);
      }
    }
  }

  lemma StarInside(name: Bytes, i: nat, role: IdRole, allowWildcards: bool)
    requires i < |name| && name[i] == STAR
    requires HasStar(name, allowWildcards) ==> i >= 1
    ensures !ValidLabels(name, role, allowWildcards)
  {
    if HasStar(name, allowWildcards) {
      if |name| < 2 || name[1] != DOT {
        WildcardNeedsDot(name, role);
        return;
      }
      WildcardPrefix(name);
      assert name[..i][..2] == name[..2];
      SplitOfPrefix(name[..i], 2);
    }
    SpoiledLabelRejects(name, i, role, allowWildcards);
  }

  /** A reference does not begin with a dot; no reference and no constraint contains a star. */
  lemma ReferenceShape(name: Bytes, role: IdRole)
    requires ValidDnsId(name, role, false) && role != Presented
    ensures role == Reference ==> name != [] && name[0] != DOT
    ensures forall i :: 0 <= i < |name| ==> name[i] != STAR
    ensures role == NameConstraint && name != [] ==> name[|name| - 1] != DOT
    ensures name != [DOT]
  {
    OnlyTheEmptyNameHasNoByte(name);
    if name != [] {
      EdgesOfLabels(name);
    }
    forall i | 0 <= i < |name|
      ensures name[i] != STAR
    {
      if name[i] == STAR {
        StarInside(name, i, role, false);
      }
    }
  }

  // ----- where the cursors have to be compared

  predicate MatchesIn(role: IdRole, presented: Bytes, reference: Bytes) {
    if role == NameConstraint then MatchesConstraint(presented, reference) else MatchesReference(presented, reference)
  }

  /** What the byte comparison of `CompareToEnd` decides. */
  predicate Compared(role: IdRole, p: Bytes, r: Bytes) {
    SameName(p, r) || (role != NameConstraint && SameName(p + [DOT], r))
  }

  lemma CompareAbsolute(p: Bytes, r: Bytes)
    requires p != [] && p[|p| - 1] != DOT
    ensures SameName(p, r) || SameName(p + [DOT], r) <==> SameName(p, WithoutTrailingDot(r))
  {
    if SameName(p, r) {
      LowerKeepsDot(p[|p| - 1]);
      LowerKeepsDot(r[|p| - 1]);
      assert r[|r| - 1] != DOT;
    }
    if SameName(p + [DOT], r) {
      assert (p + [DOT])[|p|] == DOT;
      LowerKeepsDot(r[|p|]);
      assert forall i :: 0 <= i < |p| ==> (p + [DOT])[i] == p[i];
    }
    if SameName(p, WithoutTrailingDot(r)) && r != WithoutTrailingDot(r) {
      assert forall i :: 0 <= i < |p| ==> (p + [DOT])[i] == p[i];
      assert SameName(p + [DOT], r);
    }
  }

  lemma PlainCase(presented: Bytes, role: IdRole, reference: Bytes)
    requires presented != [] && presented[0] != STAR && presented[|presented| - 1] != DOT
    requires role == NameConstraint ==> |presented| <= |reference|
    ensures MatchesIn(role, presented, reference) <==> Compared(role, presented, reference)
  {
    CompareAbsolute(presented, reference);
  }

  /** A position where a name can be covered by "*.S" is its first dot behind the first byte. */
  lemma CoverIsAtADot(presented: Bytes, name: Bytes, k: nat)
    requires |presented| >= 2 && presented[1] == DOT
    requires k <= |name| && SameName(presented[1..], name[k..])
    ensures k < |name| && name[k] == DOT
  {
    assert presented[1..][0] == DOT && name[k..][0] == name[k];
    LowerKeepsDot(name[k]);
  }

  lemma StarIsNoName(presented: Bytes, name: Bytes)
    requires presented != [] && presented[0] == STAR
    requires forall i :: 0 <= i < |name| ==> name[i] != STAR
    ensures !SameName(presented, name)
  {
    if |presented| == |name| {
      LowerKeepsDot(name[0]);
    }
  }

  lemma NoDotNoCover(presented: Bytes, role: IdRole, reference: Bytes)
    requires |presented| >= 2 && presented[0] == STAR && presented[1] == DOT
    requires role == NameConstraint ==> |presented| <= |reference|
    requires forall i :: 0 <= i < |reference| ==> reference[i] != STAR
    requires forall j :: 1 <= j < |reference| ==> reference[j] != DOT
    ensures !MatchesIn(role, presented, reference)
  {
    var name := if role == NameConstraint then reference else WithoutTrailingDot(reference);
    StarIsNoName(presented, name);
    forall k | 1 <= k < |name| && SameName(presented[1..], name[k..])
      ensures false
    {
      CoverIsAtADot(presented, name, k);
    }
  }

  /** Of all positions the first dot behind the first byte is the one that counts. */
  lemma CoverOnlyThere(presented: Bytes, name: Bytes, k: nat)
    requires |presented| >= 2 && presented[0] == STAR && presented[1] == DOT
    requires SkipsTo(name, k) && name[k] == DOT
    ensures WildcardCovers(presented, name) <==> SameName(presented[1..], name[k..])
  {
    hide SameName;
    forall j | 1 <= j < |name| && SkipsTo(name, j) && SameName(presented[1..], name[j..])
      ensures j == k
    {
      CoverIsAtADot(presented, name, j);
    }
  }

  lemma CoverNeedsADot(presented: Bytes, name: Bytes)
    requires |presented| >= 2 && presented[0] == STAR && presented[1] == DOT
    requires forall j :: 1 <= j < |name| ==> name[j] != DOT
    ensures !WildcardCovers(presented, name)
  {
    hide SameName;
    forall j | 1 <= j < |name| && SkipsTo(name, j) && SameName(presented[1..], name[j..])
      ensures false
    {
      CoverIsAtADot(presented, name, j);
    }
  }

  lemma CoverAtFirstDot(presented: Bytes, role: IdRole, reference: Bytes, k: nat)
    requires |presented| >= 2 && presented[0] == STAR && presented[1] == DOT
    requires presented[|presented| - 1] != DOT
    requires role == NameConstraint ==> |presented| <= |reference|
    requires forall i :: 0 <= i < |reference| ==> reference[i] != STAR
    requires SkipsTo(reference, k) && reference[k] == DOT
    ensures MatchesIn(role, presented, reference) <==> Compared(role, presented[1..], reference[k..])
  {
    hide SameName, WildcardCovers;
    var name := if role == NameConstraint then reference else WithoutTrailingDot(reference);
    StarIsNoName(presented, name);
    CompareAbsolute(presented[1..], reference[k..]);
    if k < |name| {
      assert WithoutTrailingDot(reference[k..]) == WithoutTrailingDot(reference)[k..];
      CoverOnlyThere(presented, name, k);
    } else {
      assert WithoutTrailingDot(reference[k..]) == [];
      CoverNeedsADot(presented, name);
      DifferentLength(presented[1..], []);
    }
  }

  lemma DifferentLength(a: Bytes, b: Bytes)
    requires |a| != |b|
    ensures !SameName(a, b)
  {
  }

  // ----- the matcher

  /** Reads one byte and goes on to the first dot behind it. */
  method SkipFirstLabel(reference: Reader) returns (found: bool)
    requires reference.Valid() && reference.pos == 0
    modifies reference
    ensures reference.Valid()
    ensures found ==> SkipsTo(reference.input, reference.pos) && reference.input[reference.pos] == DOT
    ensures !found ==> forall j :: 1 <= j < |reference.input| ==> reference.input[j] != DOT
  {
    while true
      invariant reference.Valid()
      invariant forall j :: 1 <= j <= reference.pos && j < |reference.input| ==> reference.input[j] != DOT
      decreases |reference.input| - reference.pos
    {
      var b := reference.ReadByte();
      if b.None? {
        return false;
      }
      if reference.Peek(DOT) {
        return true;
      }
    }
  }

  /** The first bytes and what is behind them. */
  lemma ComparedStep(role: IdRole, p: Bytes, r: Bytes)
    requires p != []
    ensures Compared(role, p, r) <==> r != [] && AsciiLower(p[0]) == AsciiLower(r[0]) && Compared(role, p[1..], r[1..])
  {
    hide AsciiLower;
    SameNameStep(p, r);
    SameNameStep(p + [DOT], r);
    assert (p + [DOT])[1..] == p[1..] + [DOT];
  }

  lemma SameNameStep(p: Bytes, r: Bytes)
    requires p != []
    ensures SameName(p, r) <==> r != [] && AsciiLower(p[0]) == AsciiLower(r[0]) && SameName(p[1..], r[1..])
  {
    hide AsciiLower;
    if |p| == |r| {
      assert forall i :: 1 <= i < |p| ==> p[i] == p[1..][i - 1] && r[i] == r[1..][i - 1];
    }
  }

  lemma ComparedAtEnd(role: IdRole, r: Bytes)
    ensures Compared(role, [], r) <==> r == [] || (role != NameConstraint && r == [DOT])
  {
    assert [] + [DOT] == [DOT];
    if |r| == 1 {
      LowerKeepsDot(r[0]);
    }
  }

  /** The two cursors advance together until the presented name is used up; a reference may then
      have one dot left. */
  method CompareToEnd(presented: Reader, reference: Reader, role: IdRole) returns (same: bool)
    requires presented != reference && presented.Valid() && reference.Valid()
    requires presented.pos < |presented.input| && presented.input[|presented.input| - 1] != DOT
    modifies presented, reference
    ensures
      var p := old(presented.Rest());
      var r := old(reference.Rest());
      same == Compared(role, p, r)
  {
    hide SameName, Compared, AsciiLower;
    ghost var p, r := presented.Rest(), reference.Rest();
    while true
      invariant presented.Valid() && reference.Valid()
      invariant presented.pos < |presented.input|
      invariant Compared(role, p, r) <==> Compared(role, presented.Rest(), reference.Rest())
      decreases |presented.input| - presented.pos
    {
      ghost var pLeft, rLeft := presented.Rest(), reference.Rest();
      ComparedStep(role, pLeft, rLeft);
      var pb := presented.ReadByte();
      var rb := reference.ReadByte();
      if rb.None? || AsciiLower(pb.value) != AsciiLower(rb.value) {
        return false;
      }
      assert presented.Rest() == pLeft[1..] && reference.Rest() == rLeft[1..];
      if presented.AtEnd() {
        // An absolute presented name is an error in the source; no valid presented name is absolute.
        assert pb.value != DOT;
        break;
      }
    }
    ghost var left := reference.Rest();
    assert presented.Rest() == [];
    ComparedAtEnd(role, left);
    if !reference.AtEnd() {
      if role != NameConstraint {
        var b := reference.ReadByte();
        if b != Some(DOT) {
          return false;
        }
        assert left == [DOT] + reference.Rest();
      }
      if !reference.AtEnd() {
        return false;
      }
    }
    assert presented.AtEnd();
    assert reference.AtEnd();
    return true;
  }

  lemma LowerKeepsDot(b: Byte)
    ensures AsciiLower(b) == DOT <==> b == DOT
    ensures AsciiLower(b) == STAR <==> b == STAR
    ensures AsciiLower(DOT) == DOT && AsciiLower(STAR) == STAR
  {
  }

  lemma MatchesWhenValid(presented: Bytes, role: IdRole, reference: Bytes)
    requires role != Presented && ValidDnsId(presented, Presented, true) && ValidDnsId(reference, role, false)
    ensures Matches(presented, role, reference) == Ok(MatchesIn(role, presented, reference))
  {
    hide ValidDnsId, MatchesConstraint, MatchesReference;
  }

  lemma EmptyConstraint(presented: Bytes)
    requires presented != []
    ensures MatchesIn(NameConstraint, presented, [])
  {
  }

  lemma LongerThanConstraint(presented: Bytes, base: Bytes)
    requires |presented| > |base| > 0
    ensures MatchesIn(NameConstraint, presented, base) <==>
            Compared(NameConstraint, presented[|presented| - |base|..], base)
            && (base[0] == DOT || presented[|presented| - |base| - 1] == DOT)
  {
  }

  /** Goes to the part of a longer presented name that is compared with a constraint, unless that
      part has to begin behind a dot and does not. */
  method SkipPrefix(presented: Reader, reference: Reader) returns (ok: bool)
    requires presented != reference && presented.Valid() && reference.Valid()
    requires presented.pos == reference.pos == 0 && |presented.input| > |reference.input| > 0
    modifies presented
    ensures presented.Valid()
    ensures
      var k := |presented.input| - |reference.input|;
      && ok == (reference.input[0] == DOT || presented.input[k - 1] == DOT)
      && (ok ==> presented.pos == k)
  {
    if reference.Peek(DOT) {
      var skipped := presented.Skip(|presented.input| - |reference.input|);
      assert skipped;
    } else {
      var skipped := presented.Skip(|presented.input| - |reference.input| - 1);
      assert skipped;
      var before := presented.ReadByte();
      if before != Some(DOT) {
        return false;
      }
    }
    return true;
  }

  /** Compares the whole names, a wildcard covering the first label of the reference. */
  method CompareFromStart(presented: Reader, reference: Reader, role: IdRole) returns (same: bool)
    requires presented != reference && presented.Valid() && reference.Valid() && presented.pos == reference.pos == 0
    requires ValidDnsId(presented.input, Presented, true) && role != Presented && ValidDnsId(reference.input, role, false)
    requires role == NameConstraint ==> |presented.input| <= |reference.input|
    modifies presented, reference
    ensures same == MatchesIn(role, presented.input, reference.input)
  {
    hide ValidDnsId, SkipsTo, Compared, MatchesIn;
    PresentedShape(presented.input);
    ReferenceShape(reference.input, role);
    if presented.Peek(STAR) {
      var skipped := presented.Skip(1);
      assert skipped;
      var found := SkipFirstLabel(reference);
      if !found {
        NoDotNoCover(presented.input, role, reference.input);
        return false;
      }
      CoverAtFirstDot(presented.input, role, reference.input, reference.pos);
    } else {
      PlainCase(presented.input, role, reference.input);
      assert presented.Rest() == presented.input && reference.Rest() == reference.input;
    }
    same := CompareToEnd(presented, reference, role);
  }

  /** Compares a constraint with the end of a presented name that is longer. */
  method CompareEnds(presented: Reader, reference: Reader) returns (same: bool)
    requires presented != reference && presented.Valid() && reference.Valid() && presented.pos == reference.pos == 0
    requires ValidDnsId(presented.input, Presented, true)
    requires |presented.input| > |reference.input|
    modifies presented, reference
    ensures same == MatchesIn(NameConstraint, presented.input, reference.input)
  {
    hide ValidDnsId, Compared, MatchesIn;
    PresentedShape(presented.input);
    if |reference.input| == 0 {
      EmptyConstraint(presented.input);
      return true;
    }
    LongerThanConstraint(presented.input, reference.input);
    var ok := SkipPrefix(presented, reference);
    if !ok {
      return false;
    }
    assert reference.Rest() == reference.input;
    // Behind its first byte a presented name has no star, so here the source finds no wildcard.
    assert !presented.Peek(STAR);
    same := CompareToEnd(presented, reference, NameConstraint);
  }

  /** `presented_id_matches_reference_id_internal`. */
  method PresentedIdMatches(presentedId: Bytes, role: IdRole, referenceId: Bytes) returns (res: Result<bool>)
    requires role != Presented
    ensures res == Matches(presentedId, role, referenceId)
  {
    hide ValidDnsId, MatchesIn, MatchesConstraint, MatchesReference;
    var presentedOk := IsValidDnsId(presentedId, Presented, true);
    if !presentedOk {
      return Err(MalformedDnsIdentifier);
    }
    var referenceOk := IsValidDnsId(referenceId, role, false);
    if !referenceOk {
      return Err(if role == NameConstraint then MalformedNameConstraint else MalformedDnsIdentifier);
    }
    MatchesWhenValid(presentedId, role, referenceId);
    var presented := new Reader(presentedId);
    var reference := new Reader(referenceId);
    var same;
    if role == NameConstraint && |presentedId| > |referenceId| {
      same := CompareEnds(presented, reference);
    } else {
      same := CompareFromStart(presented, reference, role);
    }
    return Ok(same);
  }
}
