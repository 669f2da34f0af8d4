/** Which encodings give which names and subtrees (src/subject_name/verify.rs:99-180, 308-351, 404-477),
    with the tags of section 4.2.1.6 and 4.2.1.10 of RFC 5280 written out. */
module NameMeaning {
  import opened Basics
  import opened Der
  import opened DerCanonical
  import opened DerMeaning
  import opened NameConstraints

  // ----- general names

  ghost predicate IsGeneralName(e: Bytes, name: GeneralName) {
    match name
    case DnsName(v) => IsTagged(e, 0x82, v)
    case DirectoryName(v) => IsTagged(e, 0xA4, v)
    case IpAddress(v) => IsTagged(e, 0x87, v)
    case UniformResourceIdentifier(v) => IsTagged(e, 0x86, v)
    case Unsupported(n) =>
      exists v ::
        || (n == 0 && IsTagged(e, 0xA0, v))
        || (n == 1 && IsTagged(e, 0x81, v))
        || (n == 3 && IsTagged(e, 0xA3, v))
        || (n == 5 && IsTagged(e, 0xA5, v))
        || (n == 8 && IsTagged(e, 0x88, v))
  }

  lemma NameOfTagExactly(e: Bytes, tag: Byte, value: Bytes, name: GeneralName)
    requires IsTagged(e, tag, value) && tag % 32 != 31
    ensures NameOfTag(Tlv(tag, value)) == Ok(name) <==> IsGeneralName(e, name)
  {
    hide IsTagged;
    forall t: Byte, v | IsTagged(e, t, v) && t % 32 != 31
      ensures t == tag && v == value
    {
      SameTag(e, tag, value, t, v);
    }
  }

  lemma SameTag(e: Bytes, tag: Byte, value: Bytes, tag': Byte, value': Bytes)
    requires IsTagged(e, tag, value) && IsTagged(e, tag', value') && tag % 32 != 31 && tag' % 32 != 31
    ensures tag == tag' && value == value'
  {
    hide Encode;
    EncodingIsUnique(tag, value, [], tag', value', []);
  }

  lemma GeneralNameExactly(b: Bytes, name: GeneralName, used: nat)
    ensures GeneralNameFromDer(b) == Step(Ok(name), used) <==> used <= |b| && IsGeneralName(b[..used], name)
  {
    hide TlvStep, IsTagged, NameOfTag;
    var s := TlvStep(b, TWO_BYTE_DER_SIZE);
    if s.result.Ok? {
      var Tlv(tag, value) := s.result.value;
      TlvExactly(b, tag, value, s.used);
      NameOfTagExactly(b[..s.used], tag, value, name);
    }
    if used <= |b| && IsGeneralName(b[..used], name) {
      var tag, value := SomeTag(b[..used], name);
      TlvExactly(b, tag, value, used);
    }
  }

  lemma SomeTag(e: Bytes, name: GeneralName) returns (tag: Byte, value: Bytes)
    requires IsGeneralName(e, name)
    ensures IsTagged(e, tag, value) && tag % 32 != 31
  {
    hide IsTagged;
    match name
    case DnsName(v) => tag, value := 0x82, v;
    case DirectoryName(v) => tag, value := 0xA4, v;
    case IpAddress(v) => tag, value := 0x87, v;
    case UniformResourceIdentifier(v) => tag, value := 0x86, v;
    case Unsupported(n) =>
      tag := if n == 0 then 0xA0 else if n == 1 then 0x81 else if n == 3 then 0xA3 else if n == 5 then 0xA5 else 0x88;
      value :| IsTagged(e, tag, value);
  }

  lemma GeneralNamesAreRead()
    ensures Progress(GeneralNameFromDer) && Reads(GeneralNameFromDer, IsGeneralName)
  {
    hide GeneralNameFromDer, IsGeneralName;
    GeneralNameProgress();
    forall b, name, used
      ensures ReadsAt(GeneralNameFromDer, IsGeneralName, b, name, used)
    {
      GeneralNameExactly(b, name, used);
    }
  }

  // ----- subtrees

  /** A subtree is the SEQUENCE of one base, without minimum and maximum. */
  ghost predicate IsSubtree(e: Bytes, base: GeneralName) {
    exists inner :: IsTagged(e, 0x30, inner) && IsGeneralName(inner, base)
  }

  lemma SubtreeExactly(b: Bytes, base: GeneralName, used: nat)
    ensures GeneralSubtree(b) == Step(Ok(base), used) <==> used <= |b| && IsSubtree(b[..used], base)
  {
    hide ExpectTag, IsTagged, GeneralNameFromDer, IsGeneralName;
    var s := ExpectTag(b, TAG_SEQUENCE);
    if s.result.Ok? {
      TagExactly(b, TAG_SEQUENCE, s.result.value, s.used);
    }
    forall inner
      ensures GeneralNameFromDer(inner) == Step(Ok(base), |inner|) <==> IsGeneralName(inner, base)
    {
      GeneralNameExactly(inner, base, |inner|);
      assert inner[..|inner|] == inner;
    }
    forall inner | used <= |b| && IsTagged(b[..used], 0x30, inner)
      ensures s == Step(Ok(inner), used)
    {
      TagExactly(b, TAG_SEQUENCE, inner, used);
    }
  }

  lemma SubtreesAreRead()
    ensures Progress(GeneralSubtree) && Reads(GeneralSubtree, IsSubtree)
  {
    hide GeneralSubtree, IsSubtree;
    SubtreeProgress();
    forall b, base, used
      ensures ReadsAt(GeneralSubtree, IsSubtree, b, base, used)
    {
      SubtreeExactly(b, base, used);
    }
  }

  /** The bases of the subtrees, none when the field is absent. */
  ghost predicate GivesBases(constraints: Option<Bytes>, bases: seq<GeneralName>) {
    if constraints.None? then bases == [] else IsList(IsSubtree, constraints.value, bases)
  }

  lemma BasesExactly(constraints: Option<Bytes>, bases: seq<GeneralName>)
    ensures Bases(constraints) == Oks(bases) <==> GivesBases(constraints, bases)
  {
    hide GeneralSubtree, IsSubtree, Progress, Reads, IsList, Items;
    BasesAreItems(constraints);
    SubtreesAreRead();
    if constraints.Some? {
      ListExactly(GeneralSubtree, IsSubtree, constraints.value, bases);
    }
  }

  /** An optional field. */
  predicate IsOptional(e: Bytes, tag: Byte, value: Option<Bytes>) {
    if value.None? then e == [] else IsTagged(e, tag, value.value)
  }

  /** The value of the extension: permitted subtrees under [0], excluded ones under [1], both optional,
      and nothing else. */
  ghost predicate HasSubtrees(value: Bytes, permitted: Option<Bytes>, excluded: Option<Bytes>) {
    exists p, e :: value == p + e && IsOptional(p, 0xA0, permitted) && IsOptional(e, 0xA1, excluded)
  }

  lemma ParseSubtreesExactly(b: Bytes, tag: Byte, value: Option<Bytes>, used: nat)
    requires tag % 32 != 31
    ensures ParseSubtrees(b, tag) == Step(Ok(value), used)
       <==> used <= |b| && IsOptional(b[..used], tag, value) && (value.None? ==> b == [] || b[0] != tag)
  {
    hide ExpectTag, IsTagged;
    if value.Some? {
      TagExactly(b, tag, value.value, used);
      if used <= |b| && IsTagged(b[..used], tag, value.value) {
        TaggedBegins(b[..used], tag, value.value);
      }
    } else {
      assert used == 0 ==> b[..used] == [];
    }
  }

  lemma HasSubtreesExactly(value: Bytes, permitted: Option<Bytes>, excluded: Option<Bytes>)
    ensures
      var p := ParseSubtrees(value, TAG_CONTEXT_CONSTRUCTED_0);
      var e := ParseSubtrees(value[p.used..], TAG_CONTEXT_CONSTRUCTED_1);
      p.result == Ok(permitted) && e.result == Ok(excluded) && p.used + e.used == |value| <==> HasSubtrees(value, permitted, excluded)
  {
    hide ParseSubtrees, IsOptional;
    var p := ParseSubtrees(value, 0xA0);
    var e := ParseSubtrees(value[p.used..], 0xA1);
    if p.result == Ok(permitted) && e.result == Ok(excluded) && p.used + e.used == |value| {
      ParseSubtreesExactly(value, 0xA0, permitted, p.used);
      ParseSubtreesExactly(value[p.used..], 0xA1, excluded, e.used);
      assert value[p.used..][..e.used] == value[p.used..];
      assert value == value[..p.used] + value[p.used..];
    }
    forall f, g | value == f + g && IsOptional(f, 0xA0, permitted) && IsOptional(g, 0xA1, excluded)
      ensures p == Step(Ok(permitted), |f|) && e == Step(Ok(excluded), |g|)
    {
      FieldsAreRead(value, permitted, excluded, f, g);
    }
  }

  lemma FieldsAreRead(value: Bytes, permitted: Option<Bytes>, excluded: Option<Bytes>, f: Bytes, g: Bytes)
    requires value == f + g && IsOptional(f, 0xA0, permitted) && IsOptional(g, 0xA1, excluded)
    ensures ParseSubtrees(value, 0xA0) == Step(Ok(permitted), |f|) && ParseSubtrees(value[|f|..], 0xA1) == Step(Ok(excluded), |g|)
  {
    hide IsTagged;
    assert value[..|f|] == f && value[|f|..] == g && g[..|g|] == g;
    if excluded.Some? {
      TaggedBegins(g, 0xA1, excluded.value);
    }
    ParseSubtreesExactly(value, 0xA0, permitted, |f|);
    ParseSubtreesExactly(g, 0xA1, excluded, |g|);
  }

  // ----- the common name of a subject

  /** One attribute: its type and a value with any tag of one octet. */
  datatype Attribute = Attribute(oid: Bytes, tag: Byte, value: Bytes)

  ghost predicate IsAttribute(e: Bytes, a: Attribute) {
    && a.tag % 32 != 31
    && exists oid, value :: e == oid + value && IsTagged(oid, 0x06, a.oid) && IsTagged(value, a.tag, a.value)
  }

  /** Attributes of other types, and at the end the common name if there is one (2.5.4.3, as a UTF8String). */
  ghost predicate GivesCommonName(b: Bytes, commonName: Option<Bytes>) {
    exists front, last, others: seq<Attribute> ::
      && b == front + last && IsList(IsAttribute, front, others)
      && (forall a :: a in others ==> a.oid != [85, 4, 3])
      && IsLastAttribute(last, commonName)
  }

  ghost predicate IsLastAttribute(last: Bytes, commonName: Option<Bytes>) {
    if commonName.None? then last == []
    else IsAttribute(last, Attribute([85, 4, 3], 0x0C, commonName.value))
  }

  /** Reading the type and the value of an attribute. */
  lemma AttributeIsRead(b: Bytes, a: Attribute, e: Bytes, rest: Bytes)
    requires b == e + rest && IsAttribute(e, a)
    ensures
      var oid := ExpectTag(b, TAG_OID);
      && e != [] && oid.result == Ok(a.oid) && oid.used < |e|
      && TlvStep(b[oid.used..], TWO_BYTE_DER_SIZE) == Step(Ok(Tlv(a.tag, a.value)), |e| - oid.used)
      && b[oid.used..][|e| - oid.used..] == rest
  {
    hide ExpectTag, IsTagged, TlvStep;
    var o, v :| e == o + v && IsTagged(o, 0x06, a.oid) && IsTagged(v, a.tag, a.value);
    TaggedBegins(v, a.tag, a.value);
    assert b[..|o|] == o && b[|o|..][..|v|] == v && b[|o|..][|v|..] == rest;
    TagExactly(b, TAG_OID, a.oid, |o|);
    TlvExactly(b[|o|..], a.tag, a.value, |v|);
  }

  /** And which attribute it is that has been read. */
  lemma ReadIsAttribute(b: Bytes) returns (a: Attribute, used: nat)
    requires
      var oid := ExpectTag(b, TAG_OID);
      oid.result.Ok? && TlvStep(b[oid.used..], TWO_BYTE_DER_SIZE).result.Ok?
    ensures used <= |b| && IsAttribute(b[..used], a)
  {
    hide ExpectTag, IsTagged, TlvStep;
    var oid := ExpectTag(b, TAG_OID);
    TagExactly(b, TAG_OID, oid.result.value, oid.used);
    var value := TlvStep(b[oid.used..], TWO_BYTE_DER_SIZE);
    var Tlv(tag, contents) := value.result.value;
    TlvExactly(b[oid.used..], tag, contents, value.used);
    a, used := Attribute(oid.result.value, tag, contents), oid.used + value.used;
    assert b[..used] == b[..oid.used] + b[oid.used..][..value.used];
  }

  lemma CommonNameTag(b: Bytes)
    ensures ExpectTag(b, TAG_UTF8_STRING)
         == var s := TlvStep(b, TWO_BYTE_DER_SIZE);
            if s.result.Err? then Step(Err(s.result.error), s.used)
            else Step(if s.result.value.tag == 0x0C then Ok(s.result.value.value) else Err(BadDer), s.used)
  {
    hide TlvStep;
  }

  /** What reading the common name makes of the attribute in front. */
  lemma CommonNameStep(b: Bytes, a: Attribute, e: Bytes, rest: Bytes)
    requires b == e + rest && IsAttribute(e, a)
    ensures a.oid == [85, 4, 3] && a.tag == 0x0C ==> NameConstraints.CommonNameInner(b) == Step(Ok(Some(a.value)), |e|)
    ensures a.oid == [85, 4, 3] && a.tag != 0x0C ==> NameConstraints.CommonNameInner(b).result.Err?
    ensures a.oid != [85, 4, 3] ==>
      var others := NameConstraints.CommonNameInner(rest);
      NameConstraints.CommonNameInner(b) == Step(others.result, |e| + others.used)
  {
    hide ExpectTag, TlvStep, IsAttribute;
    AttributeIsRead(b, a, e, rest);
    CommonNameTag(b[ExpectTag(b, TAG_OID).used..]);
  }

  /** Without an attribute in front nothing but the end can be read. */
  lemma CommonNameNeedsAttribute(b: Bytes) returns (a: Attribute, used: nat)
    requires b != [] && NameConstraints.CommonNameInner(b).result.Ok?
    ensures 0 < used <= |b| && IsAttribute(b[..used], a)
  {
    hide ExpectTag, TlvStep, IsAttribute;
    var oid := ExpectTag(b, TAG_OID);
    CommonNameTag(b[oid.used..]);
    a, used := ReadIsAttribute(b);
    AttributeNotEmpty(b[..used], a);
  }

  lemma {:induction false} CommonNameIsFound(parts: seq<Bytes>, others: seq<Attribute>, last: Bytes, commonName: Option<Bytes>)
    requires EachMeans(IsAttribute, parts, others) && (forall a :: a in others ==> a.oid != [85, 4, 3])
    requires IsLastAttribute(last, commonName)
    ensures NameConstraints.CommonNameInner(Concat(parts) + last) == Step(Ok(commonName), |Concat(parts) + last|)
    decreases |parts|
  {
    hide NameConstraints.CommonNameInner, IsAttribute;
    var b := Concat(parts) + last;
    if parts == [] {
      assert b == last && last == last + [];
      LastIsFound(last, commonName);
    } else {
      var rest := Concat(parts[1..]) + last;
      assert b == parts[0] + rest && others[0] in others;
      CommonNameStep(b, others[0], parts[0], rest);
      assert forall a :: a in others[1..] ==> a in others;
      CommonNameIsFound(parts[1..], others[1..], last, commonName);
    }
  }

  lemma LastIsFound(last: Bytes, commonName: Option<Bytes>)
    requires IsLastAttribute(last, commonName)
    ensures NameConstraints.CommonNameInner(last) == Step(Ok(commonName), |last|)
  {
    hide ExpectTag, TlvStep, IsAttribute;
    assert last == last + [];
    if commonName.Some? {
      CommonNameStep(last, Attribute([85, 4, 3], 0x0C, commonName.value), last, []);
    }
  }

  lemma {:induction false} FoundIsCommonName(b: Bytes, commonName: Option<Bytes>) returns (parts: seq<Bytes>, others: seq<Attribute>, last: Bytes)
    requires NameConstraints.CommonNameInner(b) == Step(Ok(commonName), |b|)
    ensures b == Concat(parts) + last && EachMeans(IsAttribute, parts, others)
    ensures (forall a :: a in others ==> a.oid != [85, 4, 3]) && IsLastAttribute(last, commonName)
    decreases |b|
  {
    hide NameConstraints.CommonNameInner, IsAttribute;
    parts, others, last := [], [], b;
    if b == [] {
      LastIsFound([], None);
    } else {
      var a, used := CommonNameNeedsAttribute(b);
      var e, rest := b[..used], b[used..];
      assert b == e + rest;
      CommonNameStep(b, a, e, rest);
      if a.oid == [85, 4, 3] {
        assert commonName == Some(a.value) && e == b;
        assert a == Attribute([85, 4, 3], 0x0C, a.value);
      } else {
        parts, others, last := FoundIsCommonName(rest, commonName);
        assert b == Concat([e] + parts) + last by {
          assert ([e] + parts)[1..] == parts;
        }
        parts, others := [e] + parts, [a] + others;
      }
    }
  }

  lemma AttributeNotEmpty(e: Bytes, a: Attribute)
    requires IsAttribute(e, a)
    ensures e != []
  {
    hide IsTagged;
    var o, v :| e == o + v && IsTagged(o, 0x06, a.oid) && IsTagged(v, a.tag, a.value);
    TaggedBegins(o, 0x06, a.oid);
  }

  lemma GivesCommonNameExactly(b: Bytes, commonName: Option<Bytes>)
    ensures NameConstraints.CommonNameInner(b) == Step(Ok(commonName), |b|) <==> GivesCommonName(b, commonName)
  {
    hide NameConstraints.CommonNameInner, EachMeans, IsLastAttribute;
    if NameConstraints.CommonNameInner(b) == Step(Ok(commonName), |b|) {
      var parts, others, last := FoundIsCommonName(b, commonName);
      assert IsList(IsAttribute, Concat(parts), others);
    }
    forall front, last, others: seq<Attribute> |
        && b == front + last && IsList(IsAttribute, front, others)
        && (forall a :: a in others ==> a.oid != [85, 4, 3]) && IsLastAttribute(last, commonName)
      ensures NameConstraints.CommonNameInner(b) == Step(Ok(commonName), |b|)
    {
      var parts :| front == Concat(parts) && EachMeans(IsAttribute, parts, others);
      CommonNameIsFound(parts, others, last, commonName);
    }
  }

  /** Only the first relative name of the subject is looked at: a SET of one SEQUENCE. */
  ghost predicate HasCommonName(subject: Bytes, commonName: Option<Bytes>) {
    exists used: nat, set_, attributes ::
      && used <= |subject| && IsTagged(subject[..used], 0x31, set_)
      && IsTagged(set_, 0x30, attributes) && GivesCommonName(attributes, commonName)
  }

  lemma CommonNameExactly(subject: Bytes, commonName: Option<Bytes>)
    ensures CommonName(subject) == Ok(commonName) <==> HasCommonName(subject, commonName)
  {
    hide Nested, NameConstraints.CommonNameInner, GivesCommonName, IsTagged;
    forall used: nat
      ensures Nested(subject, TAG_SET, TrailingData(DerTypeId.CommonNameOuter), NameConstraints.CommonNameOuter) == Step(Ok(commonName), used)
         <==> exists set_, attributes ::
                && used <= |subject| && IsTagged(subject[..used], 0x31, set_)
                && IsTagged(set_, 0x30, attributes) && GivesCommonName(attributes, commonName)
    {
      OuterExactly(subject, commonName, used);
    }
  }

  lemma OuterExactly(subject: Bytes, commonName: Option<Bytes>, used: nat)
    ensures Nested(subject, TAG_SET, TrailingData(DerTypeId.CommonNameOuter), NameConstraints.CommonNameOuter) == Step(Ok(commonName), used)
       <==> exists set_, attributes ::
              && used <= |subject| && IsTagged(subject[..used], 0x31, set_)
              && IsTagged(set_, 0x30, attributes) && GivesCommonName(attributes, commonName)
  {
    hide Nested, NameConstraints.CommonNameInner, GivesCommonName, IsTagged;
    NestedExactly(subject, TAG_SET, TrailingData(DerTypeId.CommonNameOuter), NameConstraints.CommonNameOuter, commonName, used);
    forall inner
      ensures NameConstraints.CommonNameOuter(inner) == Step(Ok(commonName), |inner|)
         <==> exists attributes :: IsTagged(inner, 0x30, attributes) && GivesCommonName(attributes, commonName)
    {
      NestedExactly(inner, TAG_SEQUENCE, TrailingData(DerTypeId.CommonNameInner), NameConstraints.CommonNameInner, commonName, |inner|);
      assert inner[..|inner|] == inner;
      forall attributes
        ensures NameConstraints.CommonNameInner(attributes) == Step(Ok(commonName), |attributes|) <==> GivesCommonName(attributes, commonName)
      {
        GivesCommonNameExactly(attributes, commonName);
      }
    }
  }

  // ----- all names of a certificate

  /** The alternative names in order, then the subject as a directory name, then, if it counts, its
      common name as a DNS name. */
  ghost predicate GivesNames(subject: Bytes, alt: Option<Bytes>, contents: SubjectCommonNameContents, names: seq<GeneralName>) {
    exists altNames, commonName: Option<Bytes> ::
      && (if alt.None? then altNames == [] else IsList(IsGeneralName, alt.value, altNames))
      && (if contents.DnsNameContents? then HasCommonName(subject, commonName) else commonName.None?)
      && names == altNames + [DirectoryName(subject)] + OptionalName(commonName)
  }

  lemma {:induction false} WithRestExactly(items: seq<Result<GeneralName>>, rest: seq<Result<GeneralName>>, names: seq<GeneralName>)
    ensures WithRest(items, rest) == Oks(names)
       <==> |items| <= |names| && items == Oks(names[..|items|]) && rest == Oks(names[|items|..])
  {
    hide Oks;
    var k := |items|;
    if items == [] {
      assert names[..0] == [] && names[0..] == names;
    } else if names != [] {
      WithRestExactly(items[1..], rest, names[1..]);
      OksStep(names);
      assert Oks(names) == [Ok(names[0])] + Oks(names[1..]);
      assert items == [items[0]] + items[1..];
      if k <= |names| {
        OksStep(names[..k]);
        assert names[..k][1..] == names[1..][..k - 1] && names[1..][k - 1..] == names[k..];
        assert Oks(names[..k]) == [Ok(names[0])] + Oks(names[1..][..k - 1]);
      }
    }
  }

  function OptionalName(commonName: Option<Bytes>): seq<GeneralName> {
    if commonName.Some? then [DnsName(commonName.value)] else []
  }

  lemma SubjectNamesExactly(subject: Bytes, contents: SubjectCommonNameContents, names: seq<GeneralName>)
    ensures SubjectNames(Some(subject), if contents.DnsNameContents? then Some(subject) else None) == Oks(names)
       <==> exists commonName: Option<Bytes> ::
              && (if contents.DnsNameContents? then HasCommonName(subject, commonName) else commonName.None?)
              && names == [DirectoryName(subject)] + OptionalName(commonName)
  {
    hide CommonName, HasCommonName;
    forall commonName
      ensures CommonName(subject) == Ok(commonName) <==> HasCommonName(subject, commonName)
    {
      CommonNameExactly(subject, commonName);
    }
    var items := SubjectNames(Some(subject), if contents.DnsNameContents? then Some(subject) else None);
    if items == Oks(names) {
      assert items[0] == Ok(names[0]);
      assert contents.DnsNameContents? ==> |items| < 2 || items[1].Ok?;
      var commonName := if contents.DnsNameContents? && CommonName(subject).Ok? then CommonName(subject).value else None;
      assert commonName.Some? ==> items[1] == Ok(names[1]);
      assert names == [DirectoryName(subject)] + OptionalName(commonName);
    }
    if commonName: Option<Bytes> :|
      && (if contents.DnsNameContents? then HasCommonName(subject, commonName) else commonName.None?)
      && names == [DirectoryName(subject)] + OptionalName(commonName)
    {
      assert items == Oks(names);
    }
  }

  /** All names of a certificate can be read, and are these, exactly when its fields encode them. */
  lemma NamesExactly(subject: Bytes, alt: Option<Bytes>, contents: SubjectCommonNameContents, names: seq<GeneralName>)
    ensures NamesOf(Some(subject), alt, contents) == Oks(names) <==> GivesNames(subject, alt, contents, names)
  {
    hide SubjectNames, HasCommonName, IsList, IsGeneralName, GeneralNameFromDer, Oks, WithRest, Items, Progress, Reads;
    GeneralNamesAreRead();
    var items := if alt.Some? then Items(GeneralNameFromDer, alt.value) else [];
    var rest := SubjectNames(Some(subject), if contents.DnsNameContents? then Some(subject) else None);
    WithRestExactly(items, rest, names);
    var k := |items|;
    if k <= |names| {
      AltExactly(alt, names[..k]);
      SubjectNamesExactly(subject, contents, names[k..]);
      assert names == names[..k] + names[k..];
    }
    forall altNames, commonName: Option<Bytes> |
        && (if alt.None? then altNames == [] else IsList(IsGeneralName, alt.value, altNames))
        && names == altNames + [DirectoryName(subject)] + OptionalName(commonName)
      ensures k <= |names| && altNames == names[..k] && names[k..] == [DirectoryName(subject)] + OptionalName(commonName)
    {
      AltExactly(alt, altNames);
    }
  }

  lemma AltExactly(alt: Option<Bytes>, names: seq<GeneralName>)
    ensures Progress(GeneralNameFromDer)
    ensures
      var items := if alt.Some? then Items(GeneralNameFromDer, alt.value) else [];
      && (items == Oks(names) <==> if alt.None? then names == [] else IsList(IsGeneralName, alt.value, names))
      && (items == Oks(names) ==> |items| == |names|)
  {
    hide GeneralNameFromDer, IsGeneralName, IsList, Items, Progress, Reads;
    GeneralNamesAreRead();
    if alt.Some? {
      ListExactly(GeneralNameFromDer, IsGeneralName, alt.value, names);
    }
  }
}
