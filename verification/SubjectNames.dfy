/** Text that a client asks for: an IP address or a DNS name (src/subject_name/name.rs). */
module SubjectNames {
  import opened Basics
  import opened DnsNames
  import opened IpText

  datatype SubjectName =
    | DnsName(name: Bytes)
    | IpV4(text: Bytes, v4Octets: Bytes)
    | IpV6(text: Bytes, v6Octets: Bytes)

  predicate IsReferenceName(text: Bytes) {
    ValidDnsId(text, Reference, false)
  }

  /** `SubjectNameRef::try_from_ascii`: the three forms are tried one after the other; `None` stands
      for `InvalidSubjectNameError`. Each answer is what that form's own parser says, so the order
      of the trials does not matter. */
  method TryFromAscii(text: Bytes) returns (res: Option<SubjectName>)
    ensures forall octets :: res == Some(IpV4(text, octets)) <==> ParseV4(text) == Some(octets)
    ensures forall octets :: res == Some(IpV6(text, octets)) <==> ParseV6(text) == Some(octets)
    ensures res == Some(DnsName(text)) <==> IsReferenceName(text)
    ensures res == None <==> ParseV4(text) == None && ParseV6(text) == None && !IsReferenceName(text)
    ensures res.Some? && res.value.DnsName? ==> res.value.name == text
  {
    LanguagesAreDisjoint(text);
    hide ParseV4, ParseV6, ValidDnsId;
    var v4 := ParseIpv4Address(text);
    if v4.Some? {
      return Some(IpV4(text, v4.value));
    }
    var v6 := ParseIpv6Address(text);
    if v6.Some? {
      return Some(IpV6(text, v6.value));
    }
    var isDns := IsValidDnsId(text, Reference, false);
    return if isDns then Some(DnsName(text)) else None;
  }

  /** No text belongs to two of the three languages. */
  lemma LanguagesAreDisjoint(text: Bytes)
    ensures !(ParseV4(text).Some? && ParseV6(text).Some?)
    ensures !(ParseV4(text).Some? && IsReferenceName(text))
    ensures !(ParseV6(text).Some? && IsReferenceName(text))
  {
    if IsV6Text(text) {
      ColonIsForV6Only(text);
    }
    if IsV4Text(text) {
      V4IsNoDnsName(text);
    }
  }

  /** Only an IPv6 text has a colon as its fifth byte. */
  lemma ColonIsForV6Only(text: Bytes)
    requires IsV6Text(text)
    ensures !IsReferenceName(text) && !IsV4Text(text)
  {
    assert PlaceOk(4, text[4]);
    SpoiledLabelRejects(text, 4, Reference, false);
    SplitStep(text, 4);
    hide Split, IsV4Text;
    V4HopelessRejects(text, 5);
  }

  /** The last label of a dotted address is all digits. */
  lemma V4IsNoDnsName(text: Bytes)
    requires IsV4Text(text)
    ensures !IsReferenceName(text)
  {
    var labels := Split(text);
    assert IsDecimalOctet(labels[3]);
    assert OrdinaryLabels(labels, Reference, false) == labels;
    assert AllDigits(labels[3]);
  }
}
