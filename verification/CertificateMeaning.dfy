/** What it means that one certificate passes the checks that do not look at its issuer, and what each
    of their errors means (src/verify_cert.rs:414-516, 562-584; sections 4.1.2.5, 4.2.1.9 and 4.2.1.12
    of RFC 5280). */
module CertificateMeaning {
  import opened Basics
  import opened Der
  import opened DerCanonical
  import opened DerMeaning
  import opened Certificates
  import Calendar
  import Time

  /** The encoding cannot be read. */
  predicate Malformed(e: Error) {
    e == BadDer || e == BadDerTime || e.TrailingData?
  }

  // ----- validity

  /** The canonical encoding of a text of the second `t`. */
  ghost predicate DenotesTime(b: Bytes, t: int) {
    exists tag, v: Bytes :: |v| < 16 && Calendar.IsTextOf(tag, v, t) && b == Encode(tag, v)
  }

  /** The first `used` octets of the validity are the texts of two instants. */
  ghost predicate IsPeriod(validity: Bytes, used: nat, notBefore: int, notAfter: int) {
    used <= |validity|
    && exists first: Bytes, second: Bytes ::
         validity[..used] == first + second && DenotesTime(first, notBefore) && DenotesTime(second, notAfter)
  }

  /** The validity is two texts of instants and nothing else, and the time lies between them. */
  ghost predicate ValidAt(validity: Bytes, time: int) {
    exists notBefore, notAfter :: IsPeriod(validity, |validity|, notBefore, notAfter) && notBefore <= time <= notAfter
  }

  ghost predicate EndsBeforeItBegins(validity: Bytes) {
    exists used, notBefore, notAfter :: IsPeriod(validity, used, notBefore, notAfter) && notBefore > notAfter
  }

  ghost predicate NotYetValid(validity: Bytes, time: int) {
    exists used, notBefore, notAfter :: IsPeriod(validity, used, notBefore, notAfter) && time < notBefore <= notAfter
  }

  ghost predicate Expired(validity: Bytes, time: int) {
    exists used, notBefore, notAfter :: IsPeriod(validity, used, notBefore, notAfter) && notBefore <= notAfter < time
  }

  lemma TimeExactly(b: Bytes, t: int, used: nat)
    requires used <= |b|
    ensures Time.FromDer(b) == Step(Ok(t), used) <==> DenotesTime(b[..used], t)
  {
    hide Time.FromDer, Encode, Calendar.IsTextOf;
    Calendar.ReadExactlyTheTexts(b, t, used);
    forall tag, v: Bytes | |v| < 16
      ensures |Encode(tag, v)| == used && Encode(tag, v) <= b <==> b[..used] == Encode(tag, v)
    {
    }
  }

  lemma TimeUsed(b: Bytes)
    ensures Time.FromDer(b).used <= |b|
    ensures Time.FromDer(b).result.Err? ==> Malformed(Time.FromDer(b).result.error)
  {
    hide Time.AfterYear, Time.TwoDigitsAt, ExpectTag;
    forall year, v, i
      ensures Time.AfterYear(year, v, i).result.Err? ==> Malformed(Time.AfterYear(year, v, i).result.error)
    {
      AfterYearMalformed(year, v, i);
    }
  }

  lemma AfterYearMalformed(year: nat, v: Bytes, i: nat)
    ensures Time.AfterYear(year, v, i).result.Err? ==> Malformed(Time.AfterYear(year, v, i).result.error)
  {
    hide Time.DaysInMonth, Time.DaysBeforeYearAd, Time.DaysBeforeMonthInYear;
  }

  /** Reading the two instants of a validity. */
  lemma PeriodExactly(validity: Bytes, used: nat, notBefore: int, notAfter: int)
    ensures
      var first := Time.FromDer(validity);
      var second := Time.FromDer(validity[first.used..]);
      && first.used <= |validity|
      && (IsPeriod(validity, used, notBefore, notAfter)
          <==> first.result == Ok(notBefore) && second.result == Ok(notAfter) && used == first.used + second.used)
  {
    hide Time.FromDer, DenotesTime;
    TimeUsed(validity);
    var first := Time.FromDer(validity);
    var rest := validity[first.used..];
    TimeUsed(rest);
    var second := Time.FromDer(rest);
    if first.result == Ok(notBefore) && second.result == Ok(notAfter) && used == first.used + second.used {
      TimeExactly(validity, notBefore, first.used);
      TimeExactly(rest, notAfter, second.used);
      assert validity[..used] == validity[..first.used] + rest[..second.used];
    }
    forall a: Bytes, b: Bytes |
        && used <= |validity| && validity[..used] == a + b && DenotesTime(a, notBefore) && DenotesTime(b, notAfter)
      ensures first == Step(Ok(notBefore), |a|) && second == Step(Ok(notAfter), |b|) && used == |a| + |b|
    {
      TextsAreRead(validity, a, b, used, notBefore, notAfter);
    }
  }

  lemma TextsAreRead(validity: Bytes, a: Bytes, b: Bytes, used: nat, notBefore: int, notAfter: int)
    requires used <= |validity| && validity[..used] == a + b && DenotesTime(a, notBefore) && DenotesTime(b, notAfter)
    ensures used == |a| + |b|
    ensures Time.FromDer(validity) == Step(Ok(notBefore), |a|) && Time.FromDer(validity[|a|..]) == Step(Ok(notAfter), |b|)
  {
    hide Time.FromDer, DenotesTime;
    assert |a + b| == |a| + |b|;
    assert validity[..|a|] == validity[..used][..|a|] == a;
    assert validity[|a|..][..|b|] == validity[..used][|a|..] == b;
    TimeExactly(validity, notBefore, |a|);
    TimeExactly(validity[|a|..], notAfter, |b|);
  }

  /** When the check of the validity succeeds, and when it gives which error. */
  lemma ValidityExactly(validity: Bytes, time: int)
    ensures CheckValidity(validity, time).Ok? <==> ValidAt(validity, time)
    ensures CheckValidity(validity, time) == Err(InvalidCertValidity) <==> EndsBeforeItBegins(validity)
    ensures CheckValidity(validity, time) == Err(CertNotValidYet) <==> NotYetValid(validity, time)
    ensures CheckValidity(validity, time) == Err(CertExpired) <==> Expired(validity, time)
    ensures
      var r := CheckValidity(validity, time);
      r.Err? ==> Malformed(r.error) || r.error in {InvalidCertValidity, CertNotValidYet, CertExpired}
  {
    hide Time.FromDer, IsPeriod;
    var first := Time.FromDer(validity);
    PeriodExactly(validity, 0, 0, 0);
    var second := Time.FromDer(validity[first.used..]);
    TimeUsed(validity);
    TimeUsed(validity[first.used..]);
    forall used: nat, notBefore, notAfter
      ensures IsPeriod(validity, used, notBefore, notAfter)
         <==> first.result == Ok(notBefore) && second.result == Ok(notAfter) && used == first.used + second.used
    {
      PeriodExactly(validity, used, notBefore, notAfter);
    }
    if first.result.Ok? && second.result.Ok? {
      assert IsPeriod(validity, first.used + second.used, first.result.value, second.result.value);
    }
  }

  // ----- basic constraints

  /** An optional BOOLEAN, and behind it an optional INTEGER that fits one octet. */
  ghost predicate IsBasicConstraints(b: Bytes, isCa: bool, pathLen: Option<nat>) {
    exists f, g ::
      && b == f + g && IsOptionalBool(f, isCa)
      && (if pathLen.None? then g == [] else IsSmallInteger(g, pathLen.value))
  }

  /** Behind the integer something else may stand, which is noticed last. */
  ghost predicate BeginWith(b: Bytes, used: nat, isCa: bool, pathLen: Option<nat>) {
    used <= |b| && IsBasicConstraints(b[..used], isCa, pathLen) && (pathLen.None? ==> used == |b|)
  }

  /** A CA certificate is used as one, and only such, with no more sub-CAs below than it admits. */
  ghost predicate MayBeUsed(value: Option<Bytes>, usedAsCa: bool, subCaCount: nat) {
    match value
    case None => !usedAsCa
    case Some(b) =>
      exists pathLen: Option<nat> ::
        && IsBasicConstraints(b, usedAsCa, pathLen)
        && (usedAsCa && pathLen.Some? ==> subCaCount <= pathLen.value)
  }

  ghost predicate IsOfCa(value: Option<Bytes>) {
    value.Some? && exists used: nat, pathLen: Option<nat> :: BeginWith(value.value, used, true, pathLen)
  }

  ghost predicate IsOfEndEntity(value: Option<Bytes>) {
    value.None? || exists used: nat, pathLen: Option<nat> :: BeginWith(value.value, used, false, pathLen)
  }

  ghost predicate IsOfCaWithLess(value: Option<Bytes>, subCaCount: nat) {
    value.Some? && exists used: nat, n: nat :: BeginWith(value.value, used, true, Some(n)) && n < subCaCount
  }

  lemma BasicConstraintsAreRead(b: Bytes, f: Bytes, g: Bytes, isCa: bool, pathLen: Option<nat>)
    requires f + g <= b && IsOptionalBool(f, isCa)
    requires if pathLen.None? then g == [] && b == f else IsSmallInteger(g, pathLen.value)
    ensures ReadBasicConstraints(b) == Step(Ok(BasicConstraints(isCa, pathLen)), |f + g|)
  {
    hide BoolFromDer, U8FromDer, IsTagged, IsOptionalBool, IsSmallInteger;
    assert |f + g| == |f| + |g|;
    assert b[..|f|] == (f + g)[..|f|] == f;
    BoolExactly(b, isCa, |f|);
    if pathLen.None? {
      NoNumberAhead(b);
    } else {
      assert b[|f|..][..|g|] == (f + g)[|f|..] == g;
      SmallIntegerBegins(g, pathLen.value);
      assert b[|f|] == b[|f|..][0] == g[0];
      U8Exactly(b[|f|..], pathLen.value, |g|);
    }
  }

  lemma NoNumberAhead(b: Bytes)
    ensures b == [] ==> NoBoolAhead(b)
  {
  }

  lemma SmallIntegerBegins(g: Bytes, n: nat)
    requires IsSmallInteger(g, n)
    ensures |g| >= 2 && g[0] == 0x02 && n <= 255
  {
    hide IntegerContents, IsTagged;
    TaggedBegins(g, 0x02, IntegerContents(n));
  }

  lemma BasicConstraintsExactly(b: Bytes, used: nat, isCa: bool, pathLen: Option<nat>)
    ensures ReadBasicConstraints(b) == Step(Ok(BasicConstraints(isCa, pathLen)), used) <==> BeginWith(b, used, isCa, pathLen)
  {
    hide BoolFromDer, U8FromDer, IsOptionalBool, IsSmallInteger;
    if ReadBasicConstraints(b) == Step(Ok(BasicConstraints(isCa, pathLen)), used) {
      ReadAreBasicConstraints(b);
    }
    if BeginWith(b, used, isCa, pathLen) {
      var f, g :| b[..used] == f + g && IsOptionalBool(f, isCa) && if pathLen.None? then g == [] else IsSmallInteger(g, pathLen.value);
      assert b[..used] <= b && |f + g| == used;
      assert pathLen.None? ==> b == f;
      BasicConstraintsAreRead(b, f, g, isCa, pathLen);
    }
  }

  lemma ReadAreBasicConstraints(b: Bytes)
    requires ReadBasicConstraints(b).result.Ok?
    ensures var s := ReadBasicConstraints(b); BeginWith(b, s.used, s.result.value.isCa, s.result.value.pathLen)
  {
    hide BoolFromDer, U8FromDer, IsOptionalBool, IsSmallInteger;
    var isCa := BoolFromDer(b);
    BoolExactly(b, isCa.result.value, isCa.used);
    var f := b[..isCa.used];
    if isCa.used == |b| {
      assert b[..|b|] == f + [];
    } else {
      var len := U8FromDer(b[isCa.used..]);
      U8Exactly(b[isCa.used..], len.result.value, len.used);
      assert b[..isCa.used + len.used] == f + b[isCa.used..][..len.used];
    }
  }

  lemma BasicConstraintsMalformed(b: Bytes)
    ensures var s := ReadBasicConstraints(b); s.result.Err? ==> Malformed(s.result.error)
  {
    hide ExpectTag, NonnegativeContents;
    TagError(b, TAG_INTEGER);
    var isCa := BoolFromDer(b);
    if isCa.used <= |b| {
      TagError(b[isCa.used..], TAG_INTEGER);
    }
    forall v
      ensures NonnegativeContents(v).Err? ==> NonnegativeContents(v).error == BadDer
    {
      NonnegativeMalformed(v);
    }
  }

  lemma NonnegativeMalformed(v: Bytes)
    ensures NonnegativeContents(v).Err? ==> NonnegativeContents(v).error == BadDer
  {
  }

  /** When the basic constraints admit the use, and which error they give otherwise. */
  lemma BasicConstraintsMeaning(value: Option<Bytes>, usedAsCa: bool, subCaCount: nat)
    ensures
      var r := CheckBasicConstraints(value, usedAsCa, subCaCount);
      && (r.Ok? <==> MayBeUsed(value, usedAsCa, subCaCount))
      && (r == Err(CaUsedAsEndEntity) <==> !usedAsCa && IsOfCa(value))
      && (r == Err(EndEntityUsedAsCa) <==> usedAsCa && IsOfEndEntity(value))
      && (r == Err(PathLenConstraintViolated) <==> usedAsCa && IsOfCaWithLess(value, subCaCount))
      && (r.Err? ==> Malformed(r.error) || r.error in {CaUsedAsEndEntity, EndEntityUsedAsCa, PathLenConstraintViolated})
  {
    hide ReadBasicConstraints, IsBasicConstraints;
    if value.Some? {
      var b := value.value;
      BasicConstraintsMalformed(b);
      var s := ReadBasicConstraints(b);
      forall used: nat, isCa, pathLen
        ensures s == Step(Ok(BasicConstraints(isCa, pathLen)), used) <==> BeginWith(b, used, isCa, pathLen)
      {
        BasicConstraintsExactly(b, used, isCa, pathLen);
      }
      assert b[..|b|] == b;
      forall isCa, pathLen
        ensures BeginWith(b, |b|, isCa, pathLen) <==> IsBasicConstraints(b, isCa, pathLen)
      {
      }
      hide BeginWith;
      if s.result.Ok? {
        assert BeginWith(b, s.used, s.result.value.isCa, s.result.value.pathLen);
      }
    }
  }

  // ----- extended key usage

  ghost predicate IsOid(e: Bytes, oid: Bytes) {
    IsTagged(e, 0x06, oid)
  }

  /** The purpose stands behind some others; what follows it does not matter. */
  ghost predicate Lists(b: Bytes, oid: Bytes) {
    exists used: nat, others :: used <= |b| && IsList(IsOid, b[..used], others + [oid])
  }

  /** There are purposes and nothing else, and this is not among them. */
  ghost predicate ListsOthers(b: Bytes, oid: Bytes) {
    b != [] && exists others :: IsList(IsOid, b, others) && oid !in others
  }

  ghost predicate HasPurpose(value: Option<Bytes>, usage: ExtendedKeyUsage) {
    match value
    case None => usage.RequiredIfPresent?
    case Some(b) => Lists(b, usage.oid)
  }

  ghost predicate LacksPurpose(value: Option<Bytes>, usage: ExtendedKeyUsage) {
    match value
    case None => usage.Required?
    case Some(b) => ListsOthers(b, usage.oid)
  }

  lemma {:induction false} ListedIsFound(b: Bytes, parts: seq<Bytes>, oids: seq<Bytes>, rest: Bytes, oid: Bytes)
    requires b == Concat(parts) + rest && EachMeans(IsOid, parts, oids) && oid in oids
    ensures EkuLoop(b, oid) == DONE
    decreases |parts|
  {
    hide ExpectTag, IsTagged;
    var others := Concat(parts[1..]) + rest;
    FirstOid(b, parts[0], oids[0], others);
    assert b == parts[0] + others;
    if oids[0] != oid {
      NotEmptyList(parts[1..], oids[1..]);
      ListedIsFound(others, parts[1..], oids[1..], rest, oid);
    }
  }

  lemma FirstOid(b: Bytes, e: Bytes, oid: Bytes, rest: Bytes)
    requires b == e + rest && IsOid(e, oid)
    ensures ExpectTag(b, TAG_OID) == Step(Ok(oid), |e|) && b[|e|..] == rest && b != []
  {
    hide ExpectTag, IsTagged;
    assert b[..|e|] == e;
    TagExactly(b, TAG_OID, oid, |e|);
    TaggedBegins(e, 0x06, oid);
  }

  lemma NotEmptyList(parts: seq<Bytes>, oids: seq<Bytes>)
    requires EachMeans(IsOid, parts, oids)
    ensures oids != [] ==> Concat(parts) != []
  {
    hide IsTagged;
    if oids != [] {
      TaggedBegins(parts[0], 0x06, oids[0]);
    }
  }

  lemma {:induction false} OthersAreNotFound(parts: seq<Bytes>, oids: seq<Bytes>, oid: Bytes)
    requires EachMeans(IsOid, parts, oids) && oids != [] && oid !in oids
    ensures EkuLoop(Concat(parts), oid) == Err(RequiredEkuNotFound)
    decreases |parts|
  {
    hide ExpectTag, IsTagged;
    var others := Concat(parts[1..]);
    FirstOid(Concat(parts), parts[0], oids[0], others);
    if |parts| > 1 {
      OthersAreNotFound(parts[1..], oids[1..], oid);
      NotEmptyList(parts[1..], oids[1..]);
    }
  }

  /** What stood in front when the loop ended. */
  lemma {:induction false} EkuRun(b: Bytes, oid: Bytes) returns (parts: seq<Bytes>, oids: seq<Bytes>, rest: Bytes)
    ensures b == Concat(parts) + rest && EachMeans(IsOid, parts, oids)
    ensures EkuLoop(b, oid) == DONE ==> oids != [] && oids[|oids| - 1] == oid
    ensures EkuLoop(b, oid) == Err(RequiredEkuNotFound) ==> rest == [] && oids != [] && oid !in oids
    ensures EkuLoop(b, oid) in {DONE, Err(RequiredEkuNotFound), Err(BadDer)}
    decreases |b|
  {
    hide ExpectTag, IsTagged;
    var s := ExpectTag(b, TAG_OID);
    TagError(b, TAG_OID);
    parts, oids, rest := [], [], b;
    if b != [] && s.result.Ok? {
      var e, value := b[..s.used], s.result.value;
      rest := b[s.used..];
      TagExactly(b, TAG_OID, value, s.used);
      TaggedBegins(e, 0x06, value);
      assert b == e + rest;
      if value == oid || s.used == |b| {
        parts, oids := [e], [value];
        assert Concat([e]) == e;
      } else {
        var moreParts, moreOids;
        moreParts, moreOids, rest := EkuRun(rest, oid);
        parts, oids := [e] + moreParts, [value] + moreOids;
        assert parts[1..] == moreParts;
      }
    }
  }

  /** When the loop over the purposes finds one, and which error it gives otherwise. */
  lemma PurposesExactly(b: Bytes, oid: Bytes)
    ensures EkuLoop(b, oid)
         == if Lists(b, oid) then DONE else if ListsOthers(b, oid) then Err(RequiredEkuNotFound) else Err(BadDer)
    ensures !(Lists(b, oid) && ListsOthers(b, oid))
  {
    hide EkuLoop, EachMeans;
    var parts, oids, rest := EkuRun(b, oid);
    if EkuLoop(b, oid) == DONE {
      var used := |Concat(parts)|;
      assert b[..used] == Concat(parts) && oids == oids[..|oids| - 1] + [oid];
      assert IsList(IsOid, b[..used], oids[..|oids| - 1] + [oid]);
    }
    if EkuLoop(b, oid) == Err(RequiredEkuNotFound) {
      assert b == Concat(parts);
      assert b != [] by { NotEmptyList(parts, oids); }
    }
    forall used: nat, others | used <= |b| && IsList(IsOid, b[..used], others + [oid])
      ensures EkuLoop(b, oid) == DONE
    {
      var ps :| b[..used] == Concat(ps) && EachMeans(IsOid, ps, others + [oid]);
      ListedIsFound(b, ps, others + [oid], b[used..], oid);
    }
    forall others | b != [] && IsList(IsOid, b, others) && oid !in others
      ensures EkuLoop(b, oid) == Err(RequiredEkuNotFound)
    {
      var ps :| b == Concat(ps) && EachMeans(IsOid, ps, others);
      assert others != [] by { assert EachMeans(IsOid, ps, others); NoParts(ps, others); }
      OthersAreNotFound(ps, others, oid);
    }
  }

  lemma NoParts(parts: seq<Bytes>, oids: seq<Bytes>)
    requires EachMeans(IsOid, parts, oids) && Concat(parts) != []
    ensures oids != []
  {
  }

  // ----- all checks

  lemma OnlyOneOk(r: Outcome)
    ensures r.Ok? <==> r == DONE
  {
    if r.Ok? {
      assert r.value == ();
    }
  }

  lemma PurposeMeaning(value: Option<Bytes>, usage: ExtendedKeyUsage)
    ensures CheckEku(value, usage)
         == if HasPurpose(value, usage) then DONE else if LacksPurpose(value, usage) then Err(RequiredEkuNotFound) else Err(BadDer)
    ensures !(HasPurpose(value, usage) && LacksPurpose(value, usage))
  {
    hide EkuLoop, Lists, ListsOthers;
    if value.Some? {
      PurposesExactly(value.value, usage.oid);
    }
  }

  /** A certificate passes exactly when the time is in its validity period, its basic constraints
      admit the use, and the key purpose is listed. */
  lemma PassesExactly(own: Parsed, time: int, usedAsCa: bool, subCaCount: nat, eku: ExtendedKeyUsage)
    ensures CheckIssuerIndependentProperties(own, time, usedAsCa, subCaCount, eku).Ok?
       <==> ValidAt(own.validity, time) && MayBeUsed(own.basicConstraints, usedAsCa, subCaCount) && HasPurpose(own.eku, eku)
  {
    hide CheckValidity, CheckBasicConstraints, CheckEku, ValidAt, MayBeUsed, HasPurpose, LacksPurpose;
    ValidityExactly(own.validity, time);
    BasicConstraintsMeaning(own.basicConstraints, usedAsCa, subCaCount);
    PurposeMeaning(own.eku, eku);
  }

  /** The error that is reported for a certificate that does not pass: that of the first check it fails. */
  ghost predicate FailsWith(own: Parsed, time: int, usedAsCa: bool, subCaCount: nat, eku: ExtendedKeyUsage, e: Error) {
    var inTime := ValidAt(own.validity, time);
    match e
    case InvalidCertValidity => EndsBeforeItBegins(own.validity)
    case CertNotValidYet => NotYetValid(own.validity, time)
    case CertExpired => Expired(own.validity, time)
    case CaUsedAsEndEntity => inTime && !usedAsCa && IsOfCa(own.basicConstraints)
    case EndEntityUsedAsCa => inTime && usedAsCa && IsOfEndEntity(own.basicConstraints)
    case PathLenConstraintViolated => inTime && usedAsCa && IsOfCaWithLess(own.basicConstraints, subCaCount)
    case RequiredEkuNotFound => inTime && MayBeUsed(own.basicConstraints, usedAsCa, subCaCount) && LacksPurpose(own.eku, eku)
    case _ => Malformed(e) && CheckIssuerIndependentProperties(own, time, usedAsCa, subCaCount, eku) == Err(e)
  }

  lemma FailsExactly(own: Parsed, time: int, usedAsCa: bool, subCaCount: nat, eku: ExtendedKeyUsage, e: Error)
    ensures CheckIssuerIndependentProperties(own, time, usedAsCa, subCaCount, eku) == Err(e)
       <==> FailsWith(own, time, usedAsCa, subCaCount, eku, e)
  {
    hide CheckValidity, CheckBasicConstraints, CheckEku, ValidAt, MayBeUsed, HasPurpose, LacksPurpose, EndsBeforeItBegins,
         NotYetValid, Expired, IsOfCa, IsOfEndEntity, IsOfCaWithLess;
    ValidityExactly(own.validity, time);
    BasicConstraintsMeaning(own.basicConstraints, usedAsCa, subCaCount);
    PurposeMeaning(own.eku, eku);
  }
}
