/** How one name compares with the base of one subtree, form by form (src/subject_name/verify.rs:169-222;
    section 4.2.1.10 of RFC 5280). */
module NameComparison {
  import opened Basics
  import opened NameConstraints
  import DnsNames
  import DnsMatching
  import DnsCoverage
  import IpConstraints

  /** The base has the form of the name. URIs have a form of their own that is never compared. */
  predicate SameForm(name: GeneralName, base: GeneralName) {
    match (name, base)
    case (DnsName(_), DnsName(_)) => true
    case (DirectoryName(_), DirectoryName(_)) => true
    case (IpAddress(_), IpAddress(_)) => true
    case (Unsupported(t), Unsupported(u)) => t == u
    case _ => false
  }

  /** An address and a range, of one family or of two. Of one family, the mask has to be a prefix mask
      up to the octet where the address leaves the range. */
  ghost predicate RangeIsReadable(ip: Bytes, base: Bytes) {
    && (|ip| == 4 || |ip| == 16) && (|base| == 8 || |base| == 32)
    && (|base| == 2 * |ip| ==> !IpConstraints.IsSomePrefixMask(base[|ip|..]) ==> LeavesEarly(ip, base[..|ip|], base[|ip|..]))
  }

  /** The address differs from that of the range under the longest part of the mask that is a prefix mask. */
  ghost predicate LeavesEarly(ip: Bytes, address: Bytes, mask: Bytes)
    requires |ip| == |address| == |mask|
  {
    exists k: nat, n: nat ::
      && IpConstraints.LongestPrefixMask(mask, k, n)
      && IpConstraints.Above(ip[..k], 8 * k - n) != IpConstraints.Above(address[..k], 8 * k - n)
  }

  /** The mask is a prefix mask, and above the bits it leaves free the two addresses are the same number. */
  ghost predicate InRange(ip: Bytes, base: Bytes) {
    && |base| == 2 * |ip|
    && exists n: nat ::
         && IpConstraints.IsPrefixMask(base[|ip|..], n)
         && IpConstraints.Above(ip, 8 * |ip| - n) == IpConstraints.Above(base[..|ip|], 8 * |ip| - n)
  }

  /** The two can be compared without an error. */
  ghost predicate Readable(name: GeneralName, base: GeneralName) {
    match (name, base)
    case (DnsName(n), DnsName(b)) =>
      DnsNames.ValidDnsId(n, DnsNames.Presented, true) && DnsNames.ValidDnsId(b, DnsNames.NameConstraint, false)
    case (IpAddress(n), IpAddress(b)) => RangeIsReadable(n, b)
    case (DirectoryName(_), DirectoryName(_)) => true
    case _ => false
  }

  /** What is reported when they cannot. */
  function Complaint(name: GeneralName): Error {
    match name
    case DnsName(n) => if DnsNames.ValidDnsId(n, DnsNames.Presented, true) then MalformedNameConstraint else MalformedDnsIdentifier
    case IpAddress(n) => if |n| == 4 || |n| == 16 then InvalidNetworkMaskConstraint else BadDer
    case _ => NameConstraintViolation
  }

  /** The name lies in the subtree of the base. No directory name lies in a permitted subtree, and every
      one in an excluded subtree. */
  ghost predicate InSubtree(name: GeneralName, base: GeneralName, subtrees: Subtrees) {
    match (name, base)
    case (DnsName(n), DnsName(b)) => n != [] && DnsCoverage.LiesIn(n, b)
    case (IpAddress(n), IpAddress(b)) => InRange(n, b)
    case (DirectoryName(_), DirectoryName(_)) => subtrees.ExcludedSubtrees?
    case _ => false
  }

  lemma DnsCompares(n: Bytes, b: Bytes, subtrees: Subtrees)
    ensures
      var name, base := DnsName(n), DnsName(b);
      Compare(name, base, subtrees)
      == Some(if Readable(name, base) then Ok(InSubtree(name, base, subtrees)) else Err(Complaint(name)))
  {
    hide DnsNames.ValidDnsId, DnsMatching.Matches, DnsCoverage.LiesIn;
    DnsMatching.InvalidNames(n, DnsNames.NameConstraint, b);
    var answer := DnsMatching.Matches(n, DnsNames.NameConstraint, b);
    assert answer.Ok? ==> answer.value || !answer.value;
    if DnsNames.ValidDnsId(n, DnsNames.Presented, true) && DnsNames.ValidDnsId(b, DnsNames.NameConstraint, false) {
      DnsCoverage.LiesInExactly(n, b);
    }
  }

  lemma RangeCompares(ip: Bytes, address: Bytes, mask: Bytes, k: nat, n: nat)
    requires |ip| == |address| == |mask| && IpConstraints.LongestPrefixMask(mask, k, n)
    ensures IpConstraints.IsSomePrefixMask(mask) <==> k == |mask|
    ensures LeavesEarly(ip, address, mask)
       <==> IpConstraints.Above(ip[..k], 8 * k - n) != IpConstraints.Above(address[..k], 8 * k - n)
  {
    hide IpConstraints.IsPrefixMask, IpConstraints.Above;
    assert mask[..|mask|] == mask;
    if k < |mask| && IpConstraints.IsSomePrefixMask(mask) {
      IpConstraints.ShorterPartIsPrefixMask(mask, |mask|, k + 1);
    }
    forall j: nat, m: nat | IpConstraints.LongestPrefixMask(mask, j, m)
      ensures j == k && m == n
    {
      IpConstraints.OneLongestPrefixMask(mask, k, n, j, m);
    }
  }

  lemma InRangeExactly(ip: Bytes, base: Bytes, n: nat)
    requires |base| == 2 * |ip| && IpConstraints.LongestPrefixMask(base[|ip|..], |ip|, n)
    ensures n <= 8 * |ip|
    ensures InRange(ip, base) <==> IpConstraints.Above(ip, 8 * |ip| - n) == IpConstraints.Above(base[..|ip|], 8 * |ip| - n)
  {
    hide IpConstraints.Above;
    var mask := base[|ip|..];
    assert mask[..|ip|] == mask;
    forall m: nat | IpConstraints.IsPrefixMask(mask, m)
      ensures m == n
    {
      IpConstraints.OneLongestPrefixMask(mask, |ip|, n, |ip|, m);
    }
  }

  lemma InRangeNeedsMask(ip: Bytes, base: Bytes)
    ensures InRange(ip, base) ==> |base| == 2 * |ip| && IpConstraints.IsSomePrefixMask(base[|ip|..])
  {
    hide IpConstraints.IsPrefixMask, IpConstraints.Above;
  }

  lemma AddressCompares(ip: Bytes, b: Bytes, subtrees: Subtrees)
    ensures
      var name, base := IpAddress(ip), IpAddress(b);
      Compare(name, base, subtrees)
      == Some(if Readable(name, base) then Ok(InSubtree(name, base, subtrees)) else Err(Complaint(name)))
  {
    hide IpConstraints.MatchesConstraint, IpConstraints.LongestPrefixMask, IpConstraints.Above, LeavesEarly, InRange, IpConstraints.IsSomePrefixMask;
    var k, n := IpConstraints.ConstraintExactly(ip, b);
    InRangeNeedsMask(ip, b);
    if (|ip| == 4 || |ip| == 16) && |b| == 2 * |ip| {
      RangeCompares(ip, b[..|ip|], b[|ip|..], k, n);
      assert ip[..|ip|] == ip && b[..|ip|][..|ip|] == b[..|ip|];
      if k == |ip| {
        InRangeExactly(ip, b, n);
      }
    }
  }

  /** Comparing, for all pairs of names and bases. */
  lemma CompareExactly(name: GeneralName, base: GeneralName, subtrees: Subtrees)
    ensures
      Compare(name, base, subtrees)
      == if !SameForm(name, base) then None
         else Some(if Readable(name, base) then Ok(InSubtree(name, base, subtrees)) else Err(Complaint(name)))
  {
    hide DnsNames.ValidDnsId, DnsMatching.Matches, DnsCoverage.LiesIn, IpConstraints.MatchesConstraint, InRange, RangeIsReadable;
    match (name, base)
    case (DnsName(n), DnsName(b)) => DnsCompares(n, b, subtrees);
    case (IpAddress(n), IpAddress(b)) => AddressCompares(n, b, subtrees);
    case _ =>
  }
}
