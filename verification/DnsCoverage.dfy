/** What constraint matching means for the names that a presented name, possibly a wildcard, stands for. */
module DnsCoverage {
  import opened Basics
  import opened DnsNames
  import opened DnsMatching

  /** Zero or more labels in front of `base`; one or more when `base` has a leading dot; every
      name lies under the empty base (section 4.2.1.10 of RFC 5280). */
  predicate Under(name: Bytes, base: Bytes) {
    || base == []
    || (base[0] == DOT && |name| > |base| && EndsWith(name, base))
    || (base[0] != DOT && SameName(name, base))
    || (base[0] != DOT && |name| > |base| && name[|name| - |base| - 1] == DOT && EndsWith(name, base))
  }

  // ----- the same in terms of labels

  function Lowered(name: Bytes): (r: Bytes)
    ensures |r| == |name| && forall i :: 0 <= i < |r| ==> r[i] == AsciiLower(name[i])
  {
    seq(|name|, i requires 0 <= i < |name| => AsciiLower(name[i]))
  }

  function Labels(name: Bytes): seq<Bytes> {
    Split(Lowered(name))
  }

  predicate IsSuffix(suffix: seq<Bytes>, labels: seq<Bytes>) {
    |suffix| <= |labels| && labels[|labels| - |suffix|..] == suffix
  }

  lemma {:induction false} JoinAppend(a: seq<Bytes>, b: seq<Bytes>)
    requires a != [] && b != []
    ensures Join(a + b) == Join(a) + [DOT] + Join(b)
    decreases |b|
  {
    var k := |b| - 1;
    if k == 0 {
      assert (a + b)[..|a|] == a;
    } else {
      assert (a + b)[..|a| + k] == a + b[..k];
      JoinAppend(a, b[..k]);
    }
  }

  /** A dot in front of a suffix splits the labels. */
  lemma SuffixBehindDot(front: Bytes, base: Bytes)
    ensures Split(front + [DOT] + base) == Split(front) + Split(base)
  {
    hide Split, Join;
    JoinOfSplit(base);
    JoinOfSplit(front);
    JoinAppend(Split(front), Split(base));
    SplitOfJoin(Split(front) + Split(base));
  }

  lemma FrontOfSuffix(name: Bytes, base: Bytes) returns (front: Bytes)
    requires IsSuffix(Split(base), Split(name)) && |Split(base)| < |Split(name)|
    ensures name == front + [DOT] + base
  {
    hide Split, Join;
    JoinOfSplit(name);
    JoinOfSplit(base);
    var labels := Split(name)[..|Split(name)| - |Split(base)|];
    JoinAppend(labels, Split(base));
    assert Split(name) == labels + Split(base);
    front := Join(labels);
  }

  /** `Under` says that the labels of the base end the labels of the name, and that a leading dot
      asks for at least one more. */
  lemma UnderIsLabelSuffix(name: Bytes, base: Bytes)
    requires name != [] && name[0] != DOT && base != []
    ensures Under(name, base) <==>
            if base[0] == DOT then IsSuffix(Labels(base[1..]), Labels(name)) && |Labels(base[1..])| < |Labels(name)|
            else IsSuffix(Labels(base), Labels(name))
  {
    var tail := if base[0] == DOT then base[1..] else base;
    var n, b := Lowered(name), Lowered(tail);
    if Under(name, base) {
      UnderGivesSuffix(name, base);
    }
    if IsSuffix(Split(b), Split(n)) && |Split(b)| < |Split(n)| {
      var front := FrontOfSuffix(n, b);
      FrontGivesUnder(name, base, front);
    } else if IsSuffix(Split(b), Split(n)) {
      JoinOfSplit(n);
      JoinOfSplit(b);
      assert Split(n) == Split(b);
      assert SameName(name, tail);
    }
  }

  /** In a reference the wildcard stands for exactly one label, which is not empty; all other labels
      are equal up to case. */
  lemma WildcardStandsForOneLabel(presented: Bytes, name: Bytes)
    requires |presented| >= 2 && presented[0] == STAR && presented[1] == DOT
    requires name != [] && name[0] != DOT
    ensures WildcardCovers(presented, name) <==>
            |Labels(name)| > 1 && Labels(name)[0] != [] && Labels(name)[1..] == Labels(presented)[1..]
  {
    hide Split, Join;
    var tail := Lowered(presented)[2..];
    LowerKeepsDot(presented[0]);
    LowerKeepsDot(presented[1]);
    assert Lowered(presented) == [STAR] + [DOT] + tail;
    OneLabel([STAR]);
    SuffixBehindDot([STAR], tail);
    assert Labels(presented)[1..] == Split(tail);
    if WildcardCovers(presented, name) {
      var k :| 1 <= k < |name| && SkipsTo(name, k) && SameName(presented[1..], name[k..]);
      CoverSplits(presented, name, k, tail);
    }
    if |Labels(name)| > 1 && Labels(name)[1..] == Split(tail) {
      assert Labels(name)[|Labels(name)| - |Split(tail)|..] == Split(tail);
      var front := FrontOfSuffix(Lowered(name), tail);
      FirstLabelCovers(presented, name, tail, front);
    }
  }

  lemma CoverSplits(presented: Bytes, name: Bytes, k: nat, tail: Bytes)
    requires |presented| >= 2 && presented[1] == DOT && tail == Lowered(presented)[2..]
    requires 1 <= k < |name| && name[0] != DOT && SkipsTo(name, k) && SameName(presented[1..], name[k..])
    ensures Labels(name) == [Lowered(name)[..k]] + Split(tail)
  {
    hide Split, Join, SameName, AsciiLower, Lowered;
    var n := Lowered(name);
    CoverIsAtADot(presented, name, k);
    SameNameLowered(presented[1..], name[k..]);
    LoweredDrop(presented, 1);
    LoweredDrop(name, k);
    LoweredDots(name);
    assert n[k..][1..] == n[k + 1..] && Lowered(presented)[1..][1..] == tail;
    assert n == n[..k] + [DOT] + tail;
    OneLabel(n[..k]);
    SuffixBehindDot(n[..k], tail);
  }

  lemma OnlyLabel(name: Bytes)
    requires |Split(name)| == 1
    ensures Split(name) == [name] && DOT !in name
  {
    hide Split;
    JoinOfSplit(name);
    assert Split(name) == [Split(name)[0]];
  }

  lemma FirstLabelCovers(presented: Bytes, name: Bytes, tail: Bytes, front: Bytes)
    requires |presented| >= 2 && presented[0] == STAR && presented[1] == DOT && tail == Lowered(presented)[2..]
    requires name != [] && name[0] != DOT
    requires Lowered(name) == front + [DOT] + tail && |Labels(name)| == 1 + |Split(tail)|
    ensures WildcardCovers(presented, name)
  {
    hide Split, Join, SameName, AsciiLower, Lowered;
    var n, k := Lowered(name), |front|;
    SuffixBehindDot(front, tail);
    OnlyLabel(front);
    LoweredDots(name);
    LoweredDots(presented);
    assert n[k] == DOT && forall j :: 0 <= j < k ==> n[j] == front[j];
    assert SkipsTo(name, k);
    LoweredDrop(presented, 1);
    LoweredDrop(name, k);
    assert n[k..] == [DOT] + tail == Lowered(presented)[1..];
    SameNameLowered(presented[1..], name[k..]);
  }

  lemma LoweredDots(name: Bytes)
    ensures forall i :: 0 <= i < |name| ==> (Lowered(name)[i] == DOT <==> name[i] == DOT)
  {
    forall i | 0 <= i < |name|
      ensures Lowered(name)[i] == DOT <==> name[i] == DOT
    {
      LowerKeepsDot(name[i]);
    }
  }

  lemma LoweredDrop(name: Bytes, k: nat)
    requires k <= |name|
    ensures Lowered(name[k..]) == Lowered(name)[k..]
  {
    hide AsciiLower;
    assert forall i :: 0 <= i < |name| - k ==> name[k..][i] == name[k + i];
  }

  lemma SameNameLowered(a: Bytes, b: Bytes)
    ensures SameName(a, b) <==> Lowered(a) == Lowered(b)
  {
    hide AsciiLower;
    if Lowered(a) == Lowered(b) {
      assert forall i :: 0 <= i < |a| ==> AsciiLower(a[i]) == Lowered(b)[i];
    }
  }

  lemma EndsWithLowered(name: Bytes, suffix: Bytes)
    requires |suffix| <= |name|
    ensures EndsWith(name, suffix) <==> Lowered(name)[|name| - |suffix|..] == Lowered(suffix)
  {
    hide AsciiLower, SameName, Lowered;
    LoweredDrop(name, |name| - |suffix|);
    SameNameLowered(name[|name| - |suffix|..], suffix);
  }

  lemma UnderGivesSuffix(name: Bytes, base: Bytes)
    requires base != [] && Under(name, base)
    ensures base[0] == DOT ==> IsSuffix(Labels(base[1..]), Labels(name)) && |Labels(base[1..])| < |Labels(name)|
    ensures base[0] != DOT ==> IsSuffix(Labels(base), Labels(name))
  {
    assert |base| <= |name|;
    hide Split, EndsWith, SameName, IsSuffix;
    if base[0] == DOT {
      UnderLeadingDot(name, base);
    } else {
      EndsWithLowered(name, base);
      if SameName(name, base) {
        WholeIsSuffix(Labels(name));
      } else {
        LowerKeepsDot(name[|name| - |base| - 1]);
        SuffixFrom(Lowered(name), |name| - |base| - 1);
      }
    }
  }

  lemma UnderLeadingDot(name: Bytes, base: Bytes)
    requires base != [] && base[0] == DOT && Under(name, base)
    ensures IsSuffix(Labels(base[1..]), Labels(name)) && |Labels(base[1..])| < |Labels(name)|
  {
    hide Split, EndsWith, SameName, IsSuffix;
    EndsWithLowered(name, base);
    LowerKeepsDot(base[0]);
    var n, b, k := Lowered(name), Lowered(base), |name| - |base|;
    assert n[k] == n[k..][0] == b[0];
    assert Lowered(base[1..]) == b[1..] == n[k..][1..] == n[k + 1..];
    SuffixFrom(n, k);
  }

  lemma WholeIsSuffix(labels: seq<Bytes>)
    ensures IsSuffix(labels, labels)
  {
  }

  lemma SuffixFrom(name: Bytes, k: nat)
    requires k < |name| && name[k] == DOT
    ensures IsSuffix(Split(name[k + 1..]), Split(name)) && |Split(name[k + 1..])| < |Split(name)|
  {
    hide Split;
    assert name == name[..k] + [DOT] + name[k + 1..];
    SuffixBehindDot(name[..k], name[k + 1..]);
  }

  lemma FrontGivesUnder(name: Bytes, base: Bytes, front: Bytes)
    requires name != [] && name[0] != DOT && base != []
    requires Lowered(name) == front + [DOT] + Lowered(if base[0] == DOT then base[1..] else base)
    ensures Under(name, base)
  {
    hide Split, EndsWith, SameName, AsciiLower, Lowered;
    var n, b, k := Lowered(name), Lowered(base), |front|;
    LoweredDots(name);
    LoweredDots(base);
    assert n[k] == DOT;
    if base[0] == DOT {
      LoweredDrop(base, 1);
      assert n == front + b && k > 0;
    } else {
      assert n == front + [DOT] + b;
    }
    EndsWithLowered(name, base);
    assert n[|n| - |b|..] == b;
  }

  // ----- excluded subtrees and wildcards

  /** `presented` matches the reference `reference`. */
  predicate Accepts(presented: Bytes, reference: Bytes) {
    Matches(presented, Reference, reference) == Ok(true)
  }

  /** `presented` is found in the subtree of `base`. */
  predicate Caught(presented: Bytes, base: Bytes) {
    Matches(presented, NameConstraint, base) == Ok(true)
  }

  lemma SameLabels(a: Bytes, b: Bytes)
    ensures SameName(a, b) <==> Labels(a) == Labels(b)
  {
    hide Split, Join;
    JoinOfSplit(Lowered(a));
    JoinOfSplit(Lowered(b));
    SameNameLowered(a, b);
  }

  /** The two cursors compare labels: all of them are equal up to case, once a trailing dot of the
      reference is dropped, or the first one is a wildcard for exactly one label. */
  lemma AcceptsByLabels(presented: Bytes, reference: Bytes)
    requires ValidDnsId(presented, Presented, true) && ValidDnsId(reference, Reference, false)
    ensures
      var p, r := Labels(presented), Labels(WithoutTrailingDot(reference));
      Accepts(presented, reference) <==>
      p == r || (presented[0] == STAR && |r| > 1 && r[0] != [] && r[1..] == p[1..])
  {
    hide ValidDnsId, SameName, WildcardCovers, Labels;
    PresentedShape(presented);
    ReferenceShape(reference, Reference);
    var name := WithoutTrailingDot(reference);
    SameLabels(presented, name);
    if presented[0] == STAR {
      WildcardStandsForOneLabel(presented, name);
    } else {
      NoWildcard(presented, name);
    }
  }

  /** A valid presented name stands for a valid reference: their labels are equal up to case, a trailing
      dot of the reference dropped, or all but the first, which is one label for a wildcard. */
  ghost predicate StandsFor(presented: Bytes, reference: Bytes) {
    && ValidDnsId(presented, Presented, true) && ValidDnsId(reference, Reference, false)
    && var p, r := Labels(presented), Labels(WithoutTrailingDot(reference));
       p == r || (presented != [] && presented[0] == STAR && |r| > 1 && r[0] != [] && r[1..] == p[1..])
  }

  lemma StandsForExactly(presented: Bytes, reference: Bytes)
    ensures Accepts(presented, reference) <==> StandsFor(presented, reference)
  {
    hide ValidDnsId, Labels, MatchesReference;
    if ValidDnsId(presented, Presented, true) && ValidDnsId(reference, Reference, false) {
      PresentedShape(presented);
      AcceptsByLabels(presented, reference);
    }
  }

  lemma NoWildcard(presented: Bytes, name: Bytes)
    requires presented != [] && presented[0] != STAR
    ensures !WildcardCovers(presented, name)
  {
  }

  /** Excluded subtrees cover wildcards: whenever one of the names that `presented` stands for lies
      under a valid base, the presented name itself is found there. */
  lemma WildcardsAreCovered(presented: Bytes, reference: Bytes, base: Bytes)
    requires Accepts(presented, reference)
    requires ValidDnsId(base, NameConstraint, false)
    requires Under(WithoutTrailingDot(reference), base)
    ensures Caught(presented, base)
  {
    hide ValidDnsId, SameName, Under, MatchesConstraint;
    PresentedShape(presented);
    ReferenceShape(reference, Reference);
    if base == [] {
      EmptyBaseMatches(presented);
    } else {
      if presented[0] == STAR {
        WildcardIsCovered(presented, WithoutTrailingDot(reference), base);
      } else {
        SameNameUnder(presented, WithoutTrailingDot(reference), base);
        UnderIsCaught(presented, base);
      }
    }
  }

  lemma EmptyBaseMatches(presented: Bytes)
    ensures MatchesConstraint(presented, [])
  {
  }

  lemma UnderIsCaught(name: Bytes, base: Bytes)
    requires base != [] && Under(name, base)
    ensures MatchesConstraint(name, base)
  {
  }

  lemma WildcardIsCovered(presented: Bytes, name: Bytes, base: Bytes)
    requires |presented| >= 2 && presented[0] == STAR && presented[1] == DOT
    requires name != [] && name[0] != DOT
    requires forall i :: 0 <= i < |name| ==> name[i] != STAR
    requires SameName(presented, name) || WildcardCovers(presented, name)
    requires base != [] && Under(name, base)
    ensures MatchesConstraint(presented, base)
  {
    StarIsNoName(presented, name);
    hide SameName, SkipsTo;
    var k :| 1 <= k < |name| && SkipsTo(name, k) && SameName(presented[1..], name[k..]);
    if |presented| > |base| {
      LongerWildcardUnder(presented, name, k, base);
    } else {
      ShorterWildcardUnder(presented, name, k, base);
    }
  }

  /** Lying under a base does not depend on the case of letters. */
  lemma SameNameUnder(a: Bytes, b: Bytes, base: Bytes)
    requires SameName(a, b)
    ensures Under(a, base) <==> Under(b, base)
  {
    if base != [] && |base| <= |a| {
      var k := |a| - |base|;
      assert EndsWith(a, base) <==> EndsWith(b, base) by {
        forall i | 0 <= i < |base|
          ensures AsciiLower(a[k..][i]) == AsciiLower(b[k..][i])
        {
          assert a[k..][i] == a[k + i] && b[k..][i] == b[k + i];
        }
      }
      if k > 0 {
        LowerKeepsDot(a[k - 1]);
        LowerKeepsDot(b[k - 1]);
      }
    }
  }

  /** `name` is "L" followed by ".S" and `presented` is "*.S": they end alike. */
  lemma SameEnd(presented: Bytes, name: Bytes, k: nat, suffix: Bytes)
    requires presented != [] && 1 <= k < |name| && SameName(presented[1..], name[k..])
    requires |suffix| < |presented|
    ensures EndsWith(presented, suffix) <==> EndsWith(name, suffix)
    ensures |suffix| + 1 < |presented| ==>
              (presented[|presented| - |suffix| - 1] == DOT <==> name[|name| - |suffix| - 1] == DOT)
  {
    var d := |name| - |presented|;
    forall i | 1 <= i < |presented|
      ensures AsciiLower(presented[i]) == AsciiLower(name[d + i])
    {
      assert presented[1..][i - 1] == presented[i] && name[k..][i - 1] == name[d + i];
    }
    var p, n := |presented| - |suffix|, |name| - |suffix|;
    forall i | 0 <= i < |suffix|
      ensures AsciiLower(presented[p..][i]) == AsciiLower(name[n..][i])
    {
      assert presented[p..][i] == presented[p + i] && name[n..][i] == name[d + (p + i)];
    }
    if |suffix| + 1 < |presented| {
      LowerKeepsDot(presented[p - 1]);
      assert name[n - 1] == name[d + (p - 1)];
      LowerKeepsDot(name[d + (p - 1)]);
    }
  }

  lemma LongerWildcardUnder(presented: Bytes, name: Bytes, k: nat, base: Bytes)
    requires |presented| >= 2 && presented[0] == STAR && presented[1] == DOT
    requires name != [] && name[0] != DOT
    requires SkipsTo(name, k) && SameName(presented[1..], name[k..])
    requires |presented| > |base| > 0
    ensures Under(name, base) <==> MatchesConstraint(presented, base)
  {
    SameEnd(presented, name, k, base);
    assert |name| >= |presented|;
    if |base| + 1 == |presented| {
      assert name[|name| - |base| - 1] == name[k - 1] != DOT;
    }
  }

  lemma ShorterWildcardUnder(presented: Bytes, name: Bytes, k: nat, base: Bytes)
    requires |presented| >= 2 && presented[0] == STAR && presented[1] == DOT
    requires name != [] && name[0] != DOT
    requires SkipsTo(name, k) && SameName(presented[1..], name[k..])
    requires |presented| <= |base| && Under(name, base)
    ensures SameName(name, base) && WildcardCovers(presented, base)
  {
    var at := |name| - |base|;
    assert |name| == k + |presented| - 1;
    if base[0] == DOT {
      // the dot would stand inside the first label
      assert name[at..][0] == name[at];
      LowerKeepsDot(name[at]);
    }
    forall j | 1 <= j < k
      ensures base[j] != DOT
    {
      LowerKeepsDot(name[j]);
      LowerKeepsDot(base[j]);
    }
    forall i | 0 <= i < |base| - k
      ensures AsciiLower(presented[1..][i]) == AsciiLower(base[k..][i])
    {
      assert name[k..][i] == name[k + i] && base[k..][i] == base[k + i];
    }
    assert SkipsTo(base, k) && SameName(presented[1..], base[k..]);
  }

  /** The family where a constraint catches more than it says: a wildcard against a longer base with
      a leading dot, such as "*.example.com" against ".www.example.com". */
  predicate LeadingDotWildcard(presented: Bytes, base: Bytes) {
    presented != [] && presented[0] == STAR && base != [] && base[0] == DOT && |presented| <= |base|
  }

  /** What is known of a presented name and of a reference that it matches. */
  lemma AcceptedShape(presented: Bytes, reference: Bytes)
    requires Accepts(presented, reference)
    ensures presented != [] && presented[0] != DOT && presented[|presented| - 1] != DOT
    ensures presented[0] == STAR ==> |presented| >= 2 && presented[1] == DOT
    ensures
      var name := WithoutTrailingDot(reference);
      && name != [] && name[0] != DOT && (forall i :: 0 <= i < |name| ==> name[i] != STAR)
      && (if presented[0] == STAR then WildcardCovers(presented, name) else SameName(presented, name))
  {
    hide ValidDnsId, SameName, SkipsTo;
    PresentedShape(presented);
    ReferenceShape(reference, Reference);
    if presented[0] == STAR {
      StarIsNoName(presented, WithoutTrailingDot(reference));
    }
  }

  lemma CaughtShape(presented: Bytes, base: Bytes)
    requires Caught(presented, base)
    ensures MatchesConstraint(presented, base)
    ensures base != [] ==> base[|base| - 1] != DOT
    ensures forall i :: 0 <= i < |base| ==> base[i] != STAR
  {
    hide ValidDnsId, MatchesConstraint;
    ReferenceShape(base, NameConstraint);
  }

  /** For names without a wildcard, and for wildcards longer than the base, every name that a caught
      presented name stands for lies under the base. */
  lemma CaughtNamesAreUnder(presented: Bytes, reference: Bytes, base: Bytes)
    requires Accepts(presented, reference) && Caught(presented, base)
    requires presented[0] != STAR || |presented| > |base|
    ensures Under(WithoutTrailingDot(reference), base)
  {
    hide Accepts, Caught, Under, SameName, EndsWith, SkipsTo, MatchesConstraint, WithoutTrailingDot;
    AcceptedShape(presented, reference);
    CaughtShape(presented, base);
    var name := WithoutTrailingDot(reference);
    if presented[0] == STAR {
      var k :| 1 <= k < |name| && SkipsTo(name, k) && SameName(presented[1..], name[k..]);
      if base == [] {
        UnderEmpty(name);
      } else {
        LongerWildcardUnder(presented, name, k, base);
      }
    } else {
      PlainIsUnder(presented, base);
      SameNameUnder(presented, name, base);
    }
  }

  lemma UnderEmpty(name: Bytes)
    ensures Under(name, [])
  {
  }

  lemma PlainIsUnder(presented: Bytes, base: Bytes)
    requires presented != [] && presented[0] != STAR && presented[0] != DOT
    requires MatchesConstraint(presented, base)
    ensures Under(presented, base)
  {
    hide AsciiLower, EndsWith;
    if |presented| == |base| {
      LowerKeepsDot(presented[0]);
      LowerKeepsDot(base[0]);
    }
  }

  /** A wildcard that is not longer than the base stands for a name outside: at least one of two
      letters in its place differs from the base. */
  lemma WildcardReachesOutside(presented: Bytes, base: Bytes) returns (reference: Bytes)
    requires ValidDnsId(presented, Presented, true) && presented[0] == STAR && |presented| <= |base|
    ensures Accepts(presented, reference) && !Under(WithoutTrailingDot(reference), base)
  {
    hide ValidDnsId, MatchesReference;
    PresentedShape(presented);
    var letter := if AsciiLower(base[0]) == 'a' as int then 'b' as int else 'a' as int;
    reference := Filled(presented, letter);
    FilledWildcardIsReference(presented, letter);
    assert |base| == |reference| ==> AsciiLower(reference[0]) != AsciiLower(base[0]);
  }

  /** Of a presented name that is caught by a base all names it stands for lie under the base exactly
      when it has no wildcard or is longer than the base. */
  lemma CaughtNamesAreUnderExactly(presented: Bytes, base: Bytes)
    requires ValidDnsId(presented, Presented, true) && Caught(presented, base)
    ensures (forall reference: Bytes :: Accepts(presented, reference) ==> Under(WithoutTrailingDot(reference), base))
       <==> presented[0] != STAR || |presented| > |base|
  {
    hide ValidDnsId, Under, Accepts, Caught;
    PresentedShape(presented);
    if presented[0] == STAR && |presented| <= |base| {
      var reference := WildcardReachesOutside(presented, base);
    } else {
      forall reference: Bytes | Accepts(presented, reference)
        ensures Under(WithoutTrailingDot(reference), base)
      {
        CaughtNamesAreUnder(presented, reference, base);
      }
    }
  }

  // ----- what being caught means exactly

  /** A reference that `presented` matches and that lies under `base`. */
  ghost predicate StandsForSomethingUnder(presented: Bytes, base: Bytes) {
    exists reference: Bytes :: StandsFor(presented, reference) && Under(WithoutTrailingDot(reference), base)
  }

  /** A presented name is caught by a base exactly when one of the names it stands for lies under the
      base, or when it belongs to the family of `LeadingDotWildcard` and covers the base letter by letter. */
  lemma CaughtExactly(presented: Bytes, base: Bytes)
    requires ValidDnsId(presented, Presented, true) && ValidDnsId(base, NameConstraint, false)
    ensures StandsForSomethingUnder(presented, base)
       <==> Caught(presented, base) && !LeadingDotWildcard(presented, base)
  {
    hide ValidDnsId;
    if Caught(presented, base) && !LeadingDotWildcard(presented, base) {
      var reference := SomethingUnder(presented, base);
      StandsForExactly(presented, reference);
    }
    if StandsForSomethingUnder(presented, base) {
      var reference: Bytes :| StandsFor(presented, reference) && Under(WithoutTrailingDot(reference), base);
      StandsForExactly(presented, reference);
      WildcardsAreCovered(presented, reference, base);
      if LeadingDotWildcard(presented, base) {
        NothingUnderLeadingDot(presented, reference, base);
      }
    }
  }

  /** Where valid constraints catch: a name without a wildcard lies under the base; a wildcard stands for
      a name that does, or is of the family and covers the base. */
  ghost predicate LiesIn(presented: Bytes, base: Bytes)
    requires presented != []
  {
    if presented[0] != STAR then Under(presented, base)
    else StandsForSomethingUnder(presented, base) || (LeadingDotWildcard(presented, base) && WildcardCovers(presented, base))
  }

  lemma LiesInExactly(presented: Bytes, base: Bytes)
    requires ValidDnsId(presented, Presented, true) && ValidDnsId(base, NameConstraint, false)
    ensures presented != [] && (Caught(presented, base) <==> LiesIn(presented, base))
  {
    hide ValidDnsId, Under, SameName, WildcardCovers, StandsForSomethingUnder;
    PresentedShape(presented);
    CaughtMeans(presented, base);
    if presented[0] != STAR {
      PlainExactly(presented, base);
    } else {
      CaughtExactly(presented, base);
      if LeadingDotWildcard(presented, base) {
        ReferenceShape(base, NameConstraint);
        StarIsNoName(presented, base);
      }
    }
  }

  lemma PlainExactly(presented: Bytes, base: Bytes)
    requires presented != [] && presented[0] != STAR && presented[0] != DOT
    ensures MatchesConstraint(presented, base) <==> Under(presented, base)
  {
    hide MatchesConstraint, Under;
    if MatchesConstraint(presented, base) {
      PlainIsUnder(presented, base);
    }
    if Under(presented, base) {
      if base == [] {
        EmptyBaseMatches(presented);
      } else {
        UnderIsCaught(presented, base);
      }
    }
  }

  /** The family is not empty: "*.b.c" is caught by ".a.b.c", though none of its names is under it. */
  lemma LeadingDotOverreach()
    ensures
      var presented: Bytes := ['*' as int, '.' as int, 'b' as int, '.' as int, 'c' as int];
      var base: Bytes := ['.' as int, 'a' as int, '.' as int, 'b' as int, '.' as int, 'c' as int];
      Caught(presented, base) && LeadingDotWildcard(presented, base) && !StandsForSomethingUnder(presented, base)
  {
    var presented: Bytes := ['*' as int, '.' as int, 'b' as int, '.' as int, 'c' as int];
    var base: Bytes := ['.' as int, 'a' as int, '.' as int, 'b' as int, '.' as int, 'c' as int];
    hide *;
    OverreachLabels(presented, base);
    OverreachIsValid(presented, base);
    OverreachCatches(presented, base);
    CaughtExactly(presented, base);
    CaughtMeans(presented, base);
  }

  lemma CaughtMeans(presented: Bytes, base: Bytes)
    requires ValidDnsId(presented, Presented, true) && ValidDnsId(base, NameConstraint, false)
    ensures Caught(presented, base) <==> MatchesConstraint(presented, base)
  {
    hide ValidDnsId, MatchesConstraint;
  }

  lemma OverreachLabels(presented: Bytes, base: Bytes)
    requires presented == ['*' as int, '.' as int, 'b' as int, '.' as int, 'c' as int]
    requires base == ['.' as int, 'a' as int, '.' as int, 'b' as int, '.' as int, 'c' as int]
    ensures Split(presented) == [['*' as int], ['b' as int], ['c' as int]]
    ensures Split(base) == [[], ['a' as int], ['b' as int], ['c' as int]]
  {
    hide Split;
    var star, a, b, c: Bytes := ['*' as int], ['a' as int], ['b' as int], ['c' as int];
    OneLabel([]); OneLabel(star); OneLabel(a); OneLabel(b); OneLabel(c);
    SuffixBehindDot(b, c);
    SuffixBehindDot(a, b + [DOT] + c);
    assert presented == star + [DOT] + (b + [DOT] + c);
    SuffixBehindDot(star, b + [DOT] + c);
    assert base == [] + [DOT] + (a + [DOT] + (b + [DOT] + c));
    SuffixBehindDot([], a + [DOT] + (b + [DOT] + c));
  }

  lemma OverreachIsValid(presented: Bytes, base: Bytes)
    requires |presented| == 5 && presented[0] == STAR && |base| == 6
    requires Split(presented) == [['*' as int], ['b' as int], ['c' as int]]
    requires Split(base) == [[], ['a' as int], ['b' as int], ['c' as int]]
    ensures ValidDnsId(presented, Presented, true) && ValidDnsId(base, NameConstraint, false)
  {
    hide Split;
  }

  lemma OverreachCatches(presented: Bytes, base: Bytes)
    requires presented == ['*' as int, '.' as int, 'b' as int, '.' as int, 'c' as int]
    requires base == ['.' as int, 'a' as int, '.' as int, 'b' as int, '.' as int, 'c' as int]
    ensures MatchesConstraint(presented, base) && LeadingDotWildcard(presented, base)
  {
    assert base[2..] == presented[1..];
    assert SkipsTo(base, 2);
  }

  lemma OneLabel(word: Bytes)
    requires DOT !in word
    ensures Split(word) == [word]
  {
    hide Split;
    SplitOfJoin([word]);
  }

  lemma NothingUnderLeadingDot(presented: Bytes, reference: Bytes, base: Bytes)
    requires Accepts(presented, reference) && LeadingDotWildcard(presented, base)
    ensures !Under(WithoutTrailingDot(reference), base)
  {
    hide Accepts, Under, SameName, EndsWith, SkipsTo, WithoutTrailingDot;
    AcceptedShape(presented, reference);
    var name := WithoutTrailingDot(reference);
    var k :| 1 <= k < |name| && SkipsTo(name, k) && SameName(presented[1..], name[k..]);
    TooShortForBase(presented, name, k, base);
  }

  /** The dot that the base begins with would stand inside the first label. */
  lemma TooShortForBase(presented: Bytes, name: Bytes, k: nat, base: Bytes)
    requires 0 < |presented| <= |base| && base[0] == DOT
    requires SkipsTo(name, k) && SameName(presented[1..], name[k..])
    ensures !Under(name, base)
  {
    hide AsciiLower;
    assert |name| == k + |presented| - 1;
    if |name| > |base| {
      var at := |name| - |base|;
      assert 1 <= at < k && name[at] != DOT;
      assert name[at..][0] == name[at];
      LowerKeepsDot(name[at]);
      LowerKeepsDot(base[0]);
    }
  }

  lemma SomethingUnder(presented: Bytes, base: Bytes) returns (reference: Bytes)
    requires ValidDnsId(presented, Presented, true)
    requires Caught(presented, base) && !LeadingDotWildcard(presented, base)
    ensures Accepts(presented, reference) && Under(WithoutTrailingDot(reference), base)
  {
    PresentedShape(presented);
    hide ValidDnsId, MatchesConstraint, MatchesReference;
    if presented[0] != STAR {
      reference := presented;
      PlainIsReference(presented);
      CaughtNamesAreUnder(presented, reference, base);
    } else if |presented| > |base| {
      reference := Filled(presented, 'a' as int);
      FilledWildcardIsReference(presented, 'a' as int);
      CaughtNamesAreUnder(presented, reference, base);
    } else {
      reference := base;
      ConstraintIsReference(presented, base);
    }
  }

  /** The wildcard replaced by a label of one letter. */
  function Filled(presented: Bytes, letter: Byte): Bytes
    requires presented != []
  {
    [letter] + presented[1..]
  }

  lemma CoversFilled(presented: Bytes, letter: Byte)
    requires |presented| >= 2 && presented[0] == STAR && presented[1] == DOT && presented[|presented| - 1] != DOT
    ensures MatchesReference(presented, Filled(presented, letter))
    ensures WithoutTrailingDot(Filled(presented, letter)) == Filled(presented, letter)
  {
    var reference := Filled(presented, letter);
    assert reference[1..] == presented[1..];
    assert reference[|reference| - 1] == presented[|presented| - 1];
    assert SkipsTo(reference, 1);
  }

  lemma PlainIsReference(name: Bytes)
    requires ValidDnsId(name, Presented, true) && name[0] != STAR
    ensures Accepts(name, name)
  {
    PresentedShape(name);
    EdgesOfLabels(name);
    assert SameName(name, name);
    hide LabelOk, Split, SameName;
    assert OrdinaryLabels(Split(name), Presented, false) == OrdinaryLabels(Split(name), Reference, false);
  }

  lemma ConstraintIsReference(presented: Bytes, base: Bytes)
    requires Caught(presented, base) && presented[0] == STAR && |presented| <= |base| && base[0] != DOT
    ensures Accepts(presented, base) && Under(WithoutTrailingDot(base), base)
  {
    hide ValidDnsId, SameName, WildcardCovers;
    PresentedShape(presented);
    CaughtShape(presented, base);
    StarIsNoName(presented, base);
    ConstraintIsValid(base);
    SameAsItself(base);
  }

  lemma SameAsItself(name: Bytes)
    ensures SameName(name, name)
  {
  }

  lemma ConstraintIsValid(base: Bytes)
    requires ValidDnsId(base, NameConstraint, false) && base != [] && base[0] != DOT
    ensures ValidDnsId(base, Reference, false)
  {
    hide LabelOk, Split, AllDigits;
    ReferenceShape(base, NameConstraint);
    EdgesOfLabels(base);
    assert OrdinaryLabels(Split(base), NameConstraint, false) == OrdinaryLabels(Split(base), Reference, false) == Split(base);
  }

  /** Replacing a wildcard by an ordinary label gives a valid reference that the wildcard covers. */
  lemma FilledWildcardIsReference(name: Bytes, letter: Byte)
    requires ValidDnsId(name, Presented, true) && name[0] == STAR && letter in {'a' as int, 'b' as int}
    ensures Accepts(name, Filled(name, letter)) && WithoutTrailingDot(Filled(name, letter)) == Filled(name, letter)
  {
    hide ValidLabels, MatchesReference;
    PresentedShape(name);
    CoversFilled(name, letter);
    FilledLabels(name, letter);
  }

  lemma FilledLabels(name: Bytes, letter: Byte)
    requires ValidLabels(name, Presented, true) && |name| >= 2 && name[0] == STAR && name[1] == DOT
    requires letter in {'a' as int, 'b' as int}
    ensures ValidLabels(Filled(name, letter), Reference, false)
  {
    hide Split, LabelOk, AllDigits;
    FirstLabelReplaced(name, STAR);
    FirstLabelReplaced(name, letter);
    assert [STAR] + name[1..] == name;
    LetterIsLabel(letter);
    var rest := Split(name[2..]);
    assert OrdinaryLabels(Split(name), Presented, true) == rest;
    OneLabelMore([letter], rest);
  }

  lemma LetterIsLabel(letter: Byte)
    requires letter in {'a' as int, 'b' as int}
    ensures LabelOk([letter])
  {
  }

  lemma OneLabelMore(first: Bytes, rest: seq<Bytes>)
    requires LabelOk(first) && Ordinary(rest, Presented, true)
    ensures Ordinary(OrdinaryLabels([first] + rest, Reference, false), Reference, false)
  {
    assert LabelOk(rest[|rest| - 1]);
    hide AllDigits;
    assert OrdinaryLabels([first] + rest, Reference, false) == [first] + rest;
  }

  lemma FirstLabelReplaced(name: Bytes, b: Byte)
    requires |name| >= 2 && name[1] == DOT && b != DOT
    ensures Split([b] + name[1..]) == [[b]] + Split(name[2..])
  {
    LoneLabel(b);
    SuffixBehindDot([b], name[2..]);
    assert [b] + name[1..] == [b] + [DOT] + name[2..];
  }

  lemma LoneLabel(b: Byte)
    requires b != DOT
    ensures Split([b]) == [[b]]
  {
    assert [b][..0] == [] && [] + [b] == [b];
    assert Split([b]) == Grow([[]], b);
  }
}
