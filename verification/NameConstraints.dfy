/** General names, and the decision of name constraints over a chain (src/subject_name/verify.rs). */
module NameConstraints {
  import opened Basics
  import opened Readers
  import opened Der
  import opened Certificates
  import DnsNames
  import DnsMatching
  import IpConstraints

  // ----- general names

  datatype GeneralName =
    | DnsName(dns: Bytes)
    | DirectoryName(directory: Bytes)
    | IpAddress(ip: Bytes)
    | UniformResourceIdentifier(uri: Bytes)
    | Unsupported(tag: nat)

  const OTHER_NAME_TAG: Byte := 0xA0
  const RFC822_NAME_TAG: Byte := 0x81
  const DNS_NAME_TAG: Byte := 0x82
  const X400_ADDRESS_TAG: Byte := 0xA3
  const DIRECTORY_NAME_TAG: Byte := 0xA4
  const EDI_PARTY_NAME_TAG: Byte := 0xA5
  const UNIFORM_RESOURCE_IDENTIFIER_TAG: Byte := 0x86
  const IP_ADDRESS_TAG: Byte := 0x87
  const REGISTERED_ID_TAG: Byte := 0x88

  function NameOfTag(tlv: Tlv): Result<GeneralName> {
    if tlv.tag == DNS_NAME_TAG then Ok(DnsName(tlv.value))
    else if tlv.tag == DIRECTORY_NAME_TAG then Ok(DirectoryName(tlv.value))
    else if tlv.tag == IP_ADDRESS_TAG then Ok(IpAddress(tlv.value))
    else if tlv.tag == UNIFORM_RESOURCE_IDENTIFIER_TAG then Ok(UniformResourceIdentifier(tlv.value))
    else if tlv.tag in {OTHER_NAME_TAG, RFC822_NAME_TAG, X400_ADDRESS_TAG, EDI_PARTY_NAME_TAG, REGISTERED_ID_TAG} then
      Ok(Unsupported(tlv.tag % 0x20))
    else Err(BadDer)
  }

  /** `GeneralName::from_der` */
  function GeneralNameFromDer(b: Bytes): Step<GeneralName> {
    var s := TlvStep(b, TWO_BYTE_DER_SIZE);
    match s.result
    case Err(e) => Step(Err(e), s.used)
    case Ok(tlv) => Step(NameOfTag(tlv), s.used)
  }

  lemma GeneralNameProgress()
    ensures Progress(GeneralNameFromDer)
  {
    hide NameOfTag;
  }

  method ReadGeneralName(r: Reader) returns (name: Result<GeneralName>)
    requires r.Valid()
    modifies r
    ensures r.Valid() && old(r.pos) <= r.pos
    ensures Step(name, r.pos - old(r.pos)) == GeneralNameFromDer(old(r.Rest()))
  {
    var tlv :- ReadTagAndGetValueLimited(r, TWO_BYTE_DER_SIZE);
    return NameOfTag(tlv);
  }

  // ----- the names of one certificate

  datatype SubjectCommonNameContents = DnsNameContents | Ignore

  /** id-at-commonName, 2.5.4.3 */
  const COMMON_NAME: Bytes := [85, 4, 3]

  function CommonNameInner(b: Bytes): (s: Step<Option<Bytes>>)
    ensures s.used <= |b|
    decreases |b|
  {
    if b == [] then Step(Ok(None), 0) else
    var oid := ExpectTag(b, TAG_OID);
    if oid.result.Err? then Step(Err(oid.result.error), oid.used) else
    var behind := b[oid.used..];
    if oid.result.value == COMMON_NAME then
      var value := ExpectTag(behind, TAG_UTF8_STRING);
      Step(if value.result.Ok? then Ok(Some(value.result.value)) else Err(value.result.error), oid.used + value.used)
    else
      var unused := TlvStep(behind, TWO_BYTE_DER_SIZE);
      if unused.result.Err? then Step(Err(unused.result.error), oid.used + unused.used)
      else
        var others := CommonNameInner(behind[unused.used..]);
        Step(others.result, oid.used + unused.used + others.used)
  }

  function CommonNameOuter(b: Bytes): Step<Option<Bytes>> {
    Nested(b, TAG_SEQUENCE, TrailingData(DerTypeId.CommonNameInner), CommonNameInner)
  }

  /** `common_name`; only the first relative name of the subject is looked at. */
  function CommonName(subject: Bytes): Result<Option<Bytes>> {
    Nested(subject, TAG_SET, TrailingData(DerTypeId.CommonNameOuter), CommonNameOuter).result
  }

  function CommonNameItem(subject: Option<Bytes>): seq<Result<GeneralName>> {
    if subject.None? then [] else
    match CommonName(subject.value)
    case Ok(Some(cn)) => [Ok(DnsName(cn))]
    case Ok(None) => []
    case Err(e) => [Err(e)]
  }

  /** The items up to and with the first error; behind an error nothing is yielded. */
  function WithRest(items: seq<Result<GeneralName>>, rest: seq<Result<GeneralName>>): seq<Result<GeneralName>> {
    if items == [] then rest
    else if items[0].Err? then [items[0]]
    else [items[0]] + WithRest(items[1..], rest)
  }

  function SubjectNames(directory: Option<Bytes>, common: Option<Bytes>): seq<Result<GeneralName>> {
    (if directory.Some? then [Ok(DirectoryName(directory.value))] else []) + CommonNameItem(common)
  }

  /** Everything a `NameIterator` over these fields yields. */
  function NamesOf(subject: Option<Bytes>, subjectAltName: Option<Bytes>, contents: SubjectCommonNameContents): seq<Result<GeneralName>>
  {
    GeneralNameProgress();
    var alt := if subjectAltName.Some? then Items(GeneralNameFromDer, subjectAltName.value) else [];
    WithRest(alt, SubjectNames(subject, if contents.DnsNameContents? then subject else None))
  }

  class NameIterator {
    var subjectAltName: Reader?
    var subjectDirectoryName: Option<Bytes>
    var subjectCommonName: Option<Bytes>

    ghost predicate Valid()
      reads this, subjectAltName
    {
      subjectAltName != null ==> subjectAltName.Valid()
    }

    /** What is still to come. */
    ghost function Pending(): seq<Result<GeneralName>>
      requires Valid()
      reads this, subjectAltName
    {
      GeneralNameProgress();
      var alt := if subjectAltName == null then [] else Items(GeneralNameFromDer, subjectAltName.Rest());
      WithRest(alt, SubjectNames(subjectDirectoryName, subjectCommonName))
    }

    constructor (subject: Option<Bytes>, alt: Option<Bytes>, contents: SubjectCommonNameContents)
      ensures Valid() && Pending() == NamesOf(subject, alt, contents)
      ensures subjectAltName == null || fresh(subjectAltName)
    {
      if alt.Some? {
        var reader := new Reader(alt.value);
        subjectAltName := reader;
      } else {
        subjectAltName := null;
      }
      subjectDirectoryName := subject;
      subjectCommonName := if contents.DnsNameContents? then subject else None;
      new;
      assert alt.Some? ==> subjectAltName.Rest() == alt.value;
    }

    method Next() returns (item: Option<Result<GeneralName>>)
      requires Valid()
      modifies this, subjectAltName
      ensures Valid()
      ensures subjectAltName == null || subjectAltName == old(subjectAltName)
      ensures old(Pending()) == if item.None? then [] else [item.value] + Pending()
      ensures item.None? ==> Pending() == []
    {
      hide GeneralNameFromDer, CommonName;
      GeneralNameProgress();
      if subjectAltName != null {
        if !subjectAltName.AtEnd() {
          ghost var rest := subjectAltName.Rest();
          var name := ReadGeneralName(subjectAltName);
          assert subjectAltName.Rest() == rest[GeneralNameFromDer(rest).used..];
          assert Items(GeneralNameFromDer, rest) == [name] + Items(GeneralNameFromDer, subjectAltName.Rest());
          if name.Ok? {
            return Some(name);
          }
          subjectAltName := null;
          subjectDirectoryName := None;
          subjectCommonName := None;
          return Some(name);
        } else {
          subjectAltName := null;
        }
      }
      if subjectDirectoryName.Some? {
        var directory := subjectDirectoryName.value;
        subjectDirectoryName := None;
        return Some(Ok(DirectoryName(directory)));
      }
      if subjectCommonName.Some? {
        var subject := subjectCommonName.value;
        subjectCommonName := None;
        var cn := CommonName(subject);
        if cn.Err? {
          return Some(Err(cn.error));
        }
        return if cn.value.Some? then Some(Ok(DnsName(cn.value.value))) else None;
      }
      return None;
    }
  }

  // ----- one name against the subtrees

  datatype Subtrees = PermittedSubtrees | ExcludedSubtrees

  /** `general_subtree`: a base without minimum and maximum. */
  function GeneralSubtree(b: Bytes): Step<GeneralName> {
    var s := ExpectTag(b, TAG_SEQUENCE);
    match s.result
    case Err(e) => Step(Err(e), s.used)
    case Ok(value) => Step(ReadAll(value, TrailingData(DerTypeId.GeneralName), GeneralNameFromDer), s.used)
  }

  lemma SubtreeProgress()
    ensures Progress(GeneralSubtree)
  {
    hide ReadAll;
  }

  /** How a name compares with a base; `None` when the two have different forms. Directory names
      match no permitted and every excluded base. URIs fall among the different forms. */
  function Compare(name: GeneralName, base: GeneralName, subtrees: Subtrees): Option<Result<bool>> {
    match (name, base)
    case (DnsName(n), DnsName(b)) => Some(DnsMatching.Matches(n, DnsNames.NameConstraint, b))
    case (DirectoryName(_), DirectoryName(_)) => Some(Ok(subtrees.ExcludedSubtrees?))
    case (IpAddress(n), IpAddress(b)) => Some(IpConstraints.MatchesConstraint(n, b))
    case (Unsupported(t), Unsupported(u)) => if t == u then Some(Err(NameConstraintViolation)) else None
    case _ => None
  }

  method CompareNames(name: GeneralName, base: GeneralName, subtrees: Subtrees) returns (res: Option<Result<bool>>)
    ensures res == Compare(name, base, subtrees)
  {
    match (name, base)
    case (DnsName(n), DnsName(b)) =>
      var r := DnsMatching.PresentedIdMatches(n, DnsNames.NameConstraint, b);
      return Some(r);
    case (DirectoryName(_), DirectoryName(_)) => return Some(Ok(subtrees.ExcludedSubtrees?));
    case (IpAddress(n), IpAddress(b)) =>
      var r := IpConstraints.PresentedIdMatchesConstraint(n, b);
      return Some(r);
    case (Unsupported(t), Unsupported(u)) => return if t == u then Some(Err(NameConstraintViolation)) else None;
    case _ => return None;
  }

  /** The loop over the remaining bases; `Some` is the error it ends with. */
  function Scan(subtrees: Subtrees, name: GeneralName, bases: seq<Result<GeneralName>>,
                hasMatch: bool, hasMismatch: bool): Option<Error>
  {
    if bases == [] then
      if hasMismatch && !hasMatch then Some(NameConstraintViolation) else None
    else if bases[0].Err? then Some(bases[0].error)
    else
      match Compare(name, bases[0].value, subtrees)
      case None => Scan(subtrees, name, bases[1..], hasMatch, hasMismatch)
      case Some(Err(e)) => Some(e)
      case Some(Ok(matches)) =>
        if subtrees.ExcludedSubtrees? && matches then Some(NameConstraintViolation)
        else if subtrees.ExcludedSubtrees? then Scan(subtrees, name, bases[1..], hasMatch, hasMismatch)
        else Scan(subtrees, name, bases[1..], hasMatch || matches, hasMismatch || !matches)
  }

  function Bases(constraints: Option<Bytes>): seq<Result<GeneralName>> {
    SubtreeProgress();
    if constraints.None? then [] else Items(GeneralSubtree, constraints.value)
  }

  /** `check_presented_id_conforms_to_constraints`; `None` when the name conforms. */
  function CheckPresentedName(name: GeneralName, permitted: Option<Bytes>, excluded: Option<Bytes>): Option<Error> {
    var p := Scan(PermittedSubtrees, name, Bases(permitted), false, false);
    if p.Some? then p else Scan(ExcludedSubtrees, name, Bases(excluded), false, false)
  }

  lemma BasesAreItems(constraints: Option<Bytes>)
    ensures Progress(GeneralSubtree)
    ensures Bases(constraints) == if constraints.None? then [] else Items(GeneralSubtree, constraints.value)
  {
    SubtreeProgress();
  }

  method ScanSubtrees(subtrees: Subtrees, name: GeneralName, constraints: Option<Bytes>) returns (err: Option<Error>)
    ensures err == Scan(subtrees, name, Bases(constraints), false, false)
  {
    hide Compare, GeneralSubtree, Progress, Bases, Items;
    BasesAreItems(constraints);
    if constraints.None? {
      return None;
    }
    var bases := new DerIterator(constraints.value, GeneralSubtree);
    var hasMatch := false;
    var hasMismatch := false;
    while true
      invariant bases.Valid() && fresh(bases.reader)
      invariant Scan(subtrees, name, Bases(constraints), false, false)
             == Scan(subtrees, name, bases.Remaining(), hasMatch, hasMismatch)
      decreases |bases.reader.input| - bases.reader.pos
    {
      ghost var before := bases.Remaining();
      var base := bases.Next();
      if base.None? {
        break;
      }
      assert before[0] == base.value && before[1..] == bases.Remaining();
      if base.value.Err? {
        return Some(base.value.error);
      }
      var matches := CompareNames(name, base.value.value, subtrees);
      if matches.None? {
        continue;
      }
      if matches.value.Err? {
        return Some(matches.value.error);
      }
      if subtrees.PermittedSubtrees? && matches.value.value {
        hasMatch := true;
      } else if subtrees.PermittedSubtrees? {
        hasMismatch := true;
      } else if matches.value.value {
        return Some(NameConstraintViolation);
      }
    }
    return if hasMismatch && !hasMatch then Some(NameConstraintViolation) else None;
  }

  method CheckPresentedIdConforms(name: GeneralName, permitted: Option<Bytes>, excluded: Option<Bytes>)
    returns (err: Option<Error>)
    ensures err == CheckPresentedName(name, permitted, excluded)
  {
    err := ScanSubtrees(PermittedSubtrees, name, permitted);
    if err.None? {
      err := ScanSubtrees(ExcludedSubtrees, name, excluded);
    }
  }

  // ----- the chain

  function CheckNames(names: seq<Result<GeneralName>>, permitted: Option<Bytes>, excluded: Option<Bytes>): Outcome {
    if names == [] then DONE
    else if names[0].Err? then Err(names[0].error)
    else
      match CheckPresentedName(names[0].value, permitted, excluded)
      case Some(e) => Err(e)
      case None => CheckNames(names[1..], permitted, excluded)
  }

  function CheckChain(cert: Cert, permitted: Option<Bytes>, excluded: Option<Bytes>,
                      contents: SubjectCommonNameContents): Outcome
  {
    var _ :- CheckNames(NamesOf(Some(cert.own.subject), cert.own.subjectAltName, contents), permitted, excluded);
    match cert.eeOrCa
    case EndEntity => DONE
    case Ca(child) => CheckChain(child, permitted, excluded, contents)
  }

  /** `parse_subtrees` */
  function ParseSubtrees(b: Bytes, tag: Byte): (s: Step<Option<Bytes>>)
    ensures s.used <= |b|
  {
    if b == [] || b[0] != tag then Step(Ok(None), 0)
    else
      var read := ExpectTag(b, tag);
      Step(if read.result.Ok? then Ok(Some(read.result.value)) else Err(read.result.error), read.used)
  }

  /** `check_name_constraints` on an optional extension value, all of which has to be read. */
  function CheckNameConstraints(value: Option<Bytes>, cert: Cert, contents: SubjectCommonNameContents): Outcome {
    if value.None? then DONE else
    var p := ParseSubtrees(value.value, TAG_CONTEXT_CONSTRUCTED_0);
    var permitted :- p.result;
    var e := ParseSubtrees(value.value[p.used..], TAG_CONTEXT_CONSTRUCTED_1);
    var excluded :- e.result;
    var _ :- CheckChain(cert, permitted, excluded, contents);
    if p.used + e.used == |value.value| then DONE else Err(BadDer)
  }

  method ReadSubtrees(r: Reader, tag: Byte) returns (res: Result<Option<Bytes>>)
    requires r.Valid()
    modifies r
    ensures r.Valid() && old(r.pos) <= r.pos
    ensures Step(res, r.pos - old(r.pos)) == ParseSubtrees(old(r.Rest()), tag)
  {
    if !r.Peek(tag) {
      return Ok(None);
    }
    var value :- ReadExpectedTag(r, tag);
    return Ok(Some(value));
  }

  method CheckCertificateNames(cert: Cert, permitted: Option<Bytes>, excluded: Option<Bytes>,
                               contents: SubjectCommonNameContents) returns (res: Outcome)
    ensures res == CheckNames(NamesOf(Some(cert.own.subject), cert.own.subjectAltName, contents), permitted, excluded)
  {
    hide CheckPresentedName, NamesOf, GeneralNameFromDer;
    var names := new NameIterator(Some(cert.own.subject), cert.own.subjectAltName, contents);
    ghost var all := names.Pending();
    ghost var left := |all|;
    while true
      invariant names.Valid() && fresh(names) && (names.subjectAltName != null ==> fresh(names.subjectAltName))
      invariant left == |names.Pending()|
      invariant CheckNames(all, permitted, excluded) == CheckNames(names.Pending(), permitted, excluded)
      decreases left
    {
      ghost var before := names.Pending();
      var name := names.Next();
      if name.None? {
        break;
      }
      assert before[0] == name.value && before[1..] == names.Pending();
      left := left - 1;
      if name.value.Err? {
        return Err(name.value.error);
      }
      var err := CheckPresentedIdConforms(name.value.value, permitted, excluded);
      if err.Some? {
        return Err(err.value);
      }
    }
    return DONE;
  }

  /** The walk of `check_name_constraints` down the chain. */
  method CheckSubordinates(cert: Cert, permitted: Option<Bytes>, excluded: Option<Bytes>,
                           contents: SubjectCommonNameContents) returns (res: Outcome)
    ensures res == CheckChain(cert, permitted, excluded, contents)
  {
    hide CheckNames, NamesOf;
    var child := cert;
    while true
      invariant CheckChain(cert, permitted, excluded, contents) == CheckChain(child, permitted, excluded, contents)
      decreases child
    {
      var _ :- CheckCertificateNames(child, permitted, excluded, contents);
      if child.eeOrCa.EndEntity? {
        break;
      }
      child := child.eeOrCa.child;
    }
    return DONE;
  }

  /** `check_name_constraints` */
  method CheckConstraints(value: Option<Bytes>, cert: Cert, contents: SubjectCommonNameContents) returns (res: Outcome)
    ensures res == CheckNameConstraints(value, cert, contents)
  {
    if value.None? {
      return DONE;
    }
    hide CheckChain, ParseSubtrees;
    var input := new Reader(value.value);
    assert input.Rest() == value.value;
    var permitted :- ReadSubtrees(input, TAG_CONTEXT_CONSTRUCTED_0);
    var excluded :- ReadSubtrees(input, TAG_CONTEXT_CONSTRUCTED_1);
    var _ :- CheckSubordinates(cert, permitted, excluded, contents);
    return if input.AtEnd() then DONE else Err(BadDer);
  }
}
