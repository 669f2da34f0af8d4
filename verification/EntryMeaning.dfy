/** Which bytes are the entries of a CRL and what an entry says (src/crl.rs:470-640; sections 5.1.2.6 and
    5.3 of RFC 5280). */
module EntryMeaning {
  import opened Basics
  import opened Der
  import opened DerMeaning
  import opened CertificateMeaning
  import opened RevokedCerts
  import Time

  // ----- one extension

  /** The SEQUENCE of an object identifier, an optional flag for critical, and an OCTET STRING. */
  ghost predicate IsExtension(e: Bytes, ext: Extension) {
    exists inner :: IsTagged(e, 0x30, inner) && AreExtensionFields(inner, ext)
  }

  ghost predicate AreExtensionFields(inner: Bytes, ext: Extension) {
    exists f, g, h ::
      && inner == f + (g + h)
      && IsTagged(f, 0x06, ext.id) && IsOptionalBool(g, ext.critical) && IsTagged(h, 0x04, ext.value)
  }

  /** The ENUMERATED codes of the reasons; 7 is not used. */
  function CodeOf(reason: RevocationReason): Byte {
    match reason
    case Unspecified => 0
    case KeyCompromise => 1
    case CaCompromise => 2
    case AffiliationChanged => 3
    case Superseded => 4
    case CessationOfOperation => 5
    case CertificateHold => 6
    case RemoveFromCrl => 8
    case PrivilegeWithdrawn => 9
    case AaCompromise => 10
  }

  predicate IsReason(value: Bytes, reason: RevocationReason) {
    IsTagged(value, 0x0A, [CodeOf(reason)])
  }

  /** Reason code and invalidity date are understood, a certificate issuer is refused, and anything else
      may not be critical. */
  predicate Tolerated(ext: Extension) {
    ext.id == [85, 29, 21] || ext.id == [85, 29, 24] || (ext.id != [85, 29, 29] && !ext.critical)
  }

  /** One extension at most has this identifier, and the field is what its value means. */
  ghost predicate OneValue<T(!new)>(before: Option<T>, exts: seq<Extension>, id: Bytes, means: (Bytes, T) -> bool, after: Option<T>) {
    if before.None? && after.Some? then
      exists i :: IsOnly(exts, id, i) && means(exts[i].value, after.value)
    else
      before == after && forall ext :: ext in exts ==> ext.id != id
  }

  predicate IsOnly(exts: seq<Extension>, id: Bytes, i: int) {
    0 <= i < |exts| && exts[i].id == id && forall j :: 0 <= j < |exts| && j != i ==> exts[j].id != id
  }

  ghost predicate Says(exts: seq<Extension>, cert: RevokedCert) {
    && (forall ext :: ext in exts ==> Tolerated(ext))
    && OneValue(None, exts, [85, 29, 21], IsReason, cert.reason)
    && OneValue(None, exts, [85, 29, 24], DenotesTime, cert.invalidityDate)
  }

  // ----- one entry

  /** The SEQUENCE of the serial number as the contents of an INTEGER, the text of an instant, and
      optionally a SEQUENCE of extensions. */
  ghost predicate IsEntry(e: Bytes, cert: RevokedCert) {
    exists inner :: IsTagged(e, 0x30, inner) && AreEntryFields(inner, cert)
  }

  ghost predicate AreEntryFields(inner: Bytes, cert: RevokedCert) {
    exists f, g, h ::
      && inner == f + (g + h)
      && IsTagged(f, 0x02, cert.serial) && DenotesTime(g, cert.revocationDate) && IsExtensionField(h, cert)
  }

  ghost predicate IsExtensionField(h: Bytes, cert: RevokedCert) {
    || (h == [] && cert.reason.None? && cert.invalidityDate.None?)
    || exists list, exts :: IsTagged(h, 0x30, list) && IsList(IsExtension, list, exts) && Says(exts, cert)
  }

  // ----- reading an extension

  lemma FieldsOfExtension(b: Bytes, ext: Extension)
    ensures ExtensionFromDer(b) == Step(Ok(ext), |b|) <==> AreExtensionFields(b, ext)
  {
    hide ExpectTag, BoolFromDer, IsTagged, IsOptionalBool;
    if ExtensionFromDer(b) == Step(Ok(ext), |b|) {
      ReadExtensionHasFields(b, ext);
    }
    forall f, g, h |
        && b == f + (g + h)
        && IsTagged(f, 0x06, ext.id) && IsOptionalBool(g, ext.critical) && IsTagged(h, 0x04, ext.value)
      ensures ExtensionFromDer(b) == Step(Ok(ext), |b|)
    {
      ExtensionFieldsAreRead(b, ext, f, g, h);
    }
  }

  lemma ReadExtensionHasFields(b: Bytes, ext: Extension)
    requires ExtensionFromDer(b) == Step(Ok(ext), |b|)
    ensures AreExtensionFields(b, ext)
  {
    hide ExpectTag, BoolFromDer, IsTagged, IsOptionalBool;
    var id := ExpectTag(b, TAG_OID);
    TagExactly(b, TAG_OID, ext.id, id.used);
    var behind := b[id.used..];
    var critical := BoolFromDer(behind);
    BoolExactly(behind, ext.critical, critical.used);
    var last := b[id.used + critical.used..];
    assert last == behind[critical.used..];
    TagExactly(last, TAG_OCTET_STRING, ext.value, |last|);
    assert last[..|last|] == last;
    assert b == b[..id.used] + (behind[..critical.used] + last);
  }

  lemma ExtensionFieldsAreRead(b: Bytes, ext: Extension, f: Bytes, g: Bytes, h: Bytes)
    requires b == f + (g + h)
    requires IsTagged(f, 0x06, ext.id) && IsOptionalBool(g, ext.critical) && IsTagged(h, 0x04, ext.value)
    ensures ExtensionFromDer(b) == Step(Ok(ext), |b|)
  {
    hide ExpectTag, BoolFromDer, IsTagged, IsOptionalBool;
    assert b[..|f|] == f && b[|f|..] == g + h && (g + h)[..|g|] == g;
    assert b[|f| + |g|..] == h && h[..|h|] == h;
    TagExactly(b, TAG_OID, ext.id, |f|);
    TaggedBegins(h, 0x04, ext.value);
    BoolExactly(g + h, ext.critical, |g|);
    TagExactly(h, TAG_OCTET_STRING, ext.value, |h|);
  }

  lemma ReasonOfCodeExactly(code: Byte, reason: RevocationReason)
    ensures ReasonOfCode(code) == Ok(reason) <==> code == CodeOf(reason)
  {
  }

  lemma ReasonExactly(v: Bytes, reason: RevocationReason)
    ensures ReadAll(v, TrailingData(DerTypeId.RevocationReason), ReasonFromDer) == Ok(reason) <==> IsReason(v, reason)
  {
    hide ExpectTag, IsTagged, ReasonOfCode, CodeOf;
    assert v[..|v|] == v;
    TagExactly(v, TAG_ENUM, [CodeOf(reason)], |v|);
    var s := ExpectTag(v, TAG_ENUM);
    if s.result.Ok? && |s.result.value| == 1 {
      ReasonOfCodeExactly(s.result.value[0], reason);
      assert s.result.value == [s.result.value[0]];
      TagExactly(v, TAG_ENUM, s.result.value, s.used);
    }
    ReasonOfCodeExactly(CodeOf(reason), reason);
  }

  lemma DateExactly(v: Bytes, t: int)
    ensures ReadAll(v, BadDer, Time.FromDer) == Ok(t) <==> DenotesTime(v, t)
  {
    hide Time.FromDer, DenotesTime;
    assert v[..|v|] == v;
    TimeExactly(v, t, |v|);
  }

  // ----- what the extensions say

  lemma OneValueStep<T(!new)>(before: Option<T>, exts: seq<Extension>, id: Bytes, means: (Bytes, T) -> bool, after: Option<T>)
    requires exts != []
    ensures exts[0].id != id ==> (OneValue(before, exts, id, means, after) <==> OneValue(before, exts[1..], id, means, after))
    ensures exts[0].id == id ==>
              (OneValue(before, exts, id, means, after)
               <==> before.None? && after.Some? && means(exts[0].value, after.value) && OneValue(after, exts[1..], id, means, after))
  {
    var rest := exts[1..];
    assert forall ext :: ext in exts <==> ext == exts[0] || ext in rest;
    assert forall i :: 0 <= i < |rest| ==> rest[i] == exts[i + 1];
    forall i
      ensures exts[0].id != id ==> (IsOnly(rest, id, i) <==> IsOnly(exts, id, i + 1))
      ensures IsOnly(exts, id, 0) <==> exts[0].id == id && forall ext :: ext in rest ==> ext.id != id
    {
      OnlyBehind(exts, id, i);
    }
    if exts[0].id == id {
      forall i | IsOnly(exts, id, i)
        ensures i == 0
      {
      }
    } else if before.None? && after.Some? {
      forall i | IsOnly(exts, id, i) && means(exts[i].value, after.value)
        ensures IsOnly(rest, id, i - 1) && means(rest[i - 1].value, after.value)
      {
        OnlyBehind(exts, id, i - 1);
      }
    }
  }

  lemma OnlyBehind(exts: seq<Extension>, id: Bytes, i: int)
    requires exts != []
    ensures exts[0].id != id ==> (IsOnly(exts[1..], id, i) <==> IsOnly(exts, id, i + 1))
    ensures IsOnly(exts, id, 0) <==> exts[0].id == id && forall ext :: ext in exts[1..] ==> ext.id != id
  {
    var rest := exts[1..];
    assert forall j :: 0 <= j < |rest| ==> rest[j] == exts[j + 1];
    if IsOnly(exts, id, 0) {
      forall ext | ext in rest
        ensures ext.id != id
      {
        var j :| 0 <= j < |rest| && rest[j] == ext;
        assert exts[j + 1].id != id;
      }
    }
    if exts[0].id != id && IsOnly(rest, id, i) {
      forall j | 0 <= j < |exts| && j != i + 1
        ensures exts[j].id != id
      {
        assert j > 0 ==> rest[j - 1] == exts[j];
      }
    }
  }

  /** Remembering one extension after the other. */
  function Remembered(cert: RevokedCert, exts: seq<Extension>): Result<RevokedCert>
    decreases |exts|
  {
    if exts == [] then Ok(cert)
    else
      var next :- Remember(cert, exts[0]);
      Remembered(next, exts[1..])
  }

  ghost predicate SaysMore(before: RevokedCert, exts: seq<Extension>, after: RevokedCert) {
    && after.serial == before.serial && after.revocationDate == before.revocationDate
    && (forall ext :: ext in exts ==> Tolerated(ext))
    && OneValue(before.reason, exts, [85, 29, 21], IsReason, after.reason)
    && OneValue(before.invalidityDate, exts, [85, 29, 24], DenotesTime, after.invalidityDate)
  }

  lemma StandardId(id: Bytes)
    ensures |id| == |ID_CE| + 1 && id[..2] == ID_CE <==> |id| == 3 && id == [85, 29, id[2]]
  {
  }

  /** What remembering one extension does. */
  lemma RememberExactly(cert: RevokedCert, ext: Extension)
    ensures
      var r := Remember(cert, ext);
      if ext.id == [85, 29, 21] then
        forall reason :: r == Ok(cert.(reason := Some(reason))) <==> cert.reason.None? && IsReason(ext.value, reason)
      else if ext.id == [85, 29, 24] then
        forall t :: r == Ok(cert.(invalidityDate := Some(t))) <==> cert.invalidityDate.None? && DenotesTime(ext.value, t)
      else r.Ok? <==> Tolerated(ext)
    ensures
      var r := Remember(cert, ext);
      r.Ok? ==>
        r.value == if ext.id == [85, 29, 21] then cert.(reason := r.value.reason)
                   else if ext.id == [85, 29, 24] then cert.(invalidityDate := r.value.invalidityDate)
                   else cert
    ensures
      var r := Remember(cert, ext);
      r.Ok? && ext.id == [85, 29, 21] ==> r.value.reason.Some?
    ensures
      var r := Remember(cert, ext);
      r.Ok? && ext.id == [85, 29, 24] ==> r.value.invalidityDate.Some?
  {
    hide ReadAll, ReasonFromDer, Time.FromDer, DenotesTime, IsReason;
    StandardId(ext.id);
    forall reason
      ensures ReadAll(ext.value, TrailingData(DerTypeId.RevocationReason), ReasonFromDer) == Ok(reason) <==> IsReason(ext.value, reason)
    {
      ReasonExactly(ext.value, reason);
    }
    forall t
      ensures ReadAll(ext.value, BadDer, Time.FromDer) == Ok(t) <==> DenotesTime(ext.value, t)
    {
      DateExactly(ext.value, t);
    }
  }

  lemma {:induction false} RememberedExactly(before: RevokedCert, exts: seq<Extension>, after: RevokedCert)
    ensures Remembered(before, exts) == Ok(after) <==> SaysMore(before, exts, after)
    decreases |exts|
  {
    hide Remember, DenotesTime, IsReason, OneValue;
    if exts == [] {
      NoValues(before.reason, [85, 29, 21], IsReason, after.reason);
      NoValues(before.invalidityDate, [85, 29, 24], DenotesTime, after.invalidityDate);
    } else {
      var ext, rest := exts[0], exts[1..];
      RememberExactly(before, ext);
      OneValueStep(before.reason, exts, [85, 29, 21], IsReason, after.reason);
      OneValueStep(before.invalidityDate, exts, [85, 29, 24], DenotesTime, after.invalidityDate);
      assert forall e :: e in exts <==> e == ext || e in rest;
      var r := Remember(before, ext);
      if r.Ok? {
        RememberedExactly(r.value, rest, after);
        SomeStays(r.value.reason, rest, [85, 29, 21], IsReason, after.reason);
        SomeStays(r.value.invalidityDate, rest, [85, 29, 24], DenotesTime, after.invalidityDate);
      }
    }
  }

  lemma NoValues<T(!new)>(before: Option<T>, id: Bytes, means: (Bytes, T) -> bool, after: Option<T>)
    ensures OneValue(before, [], id, means, after) <==> before == after
  {
  }

  lemma SomeStays<T(!new)>(before: Option<T>, exts: seq<Extension>, id: Bytes, means: (Bytes, T) -> bool, after: Option<T>)
    ensures before.Some? && OneValue(before, exts, id, means, after) ==> after == before
  {
  }

  // ----- reading the extensions

  function NextExtension(cert: RevokedCert, b: Bytes): Step<RevokedCert> {
    Nested(b, TAG_SEQUENCE, TrailingData(DerTypeId.RevokedCertificateExtension), inner => RememberNext(cert, inner))
  }

  lemma RememberAllStep(cert: RevokedCert, b: Bytes)
    ensures b == [] ==> RememberAll(cert, b) == Ok(cert)
    ensures
      var s := NextExtension(cert, b);
      && s.used <= |b|
      && (b != [] ==> RememberAll(cert, b) == if s.result.Err? then Err(s.result.error) else RememberAll(s.result.value, b[s.used..]))
  {
    hide Nested, RememberNext;
  }

  /** The extension in front is read and remembered. */
  lemma NextExactly(cert: RevokedCert, b: Bytes, next: RevokedCert, used: nat)
    ensures NextExtension(cert, b) == Step(Ok(next), used)
       <==> used <= |b| && exists ext :: IsExtension(b[..used], ext) && Remember(cert, ext) == Ok(next)
  {
    hide Nested, RememberNext, Remember, IsTagged, AreExtensionFields;
    NestedExactly(b, TAG_SEQUENCE, TrailingData(DerTypeId.RevokedCertificateExtension), inner => RememberNext(cert, inner), next, used);
    forall inner
      ensures RememberNext(cert, inner) == Step(Ok(next), |inner|) <==> exists ext :: AreExtensionFields(inner, ext) && Remember(cert, ext) == Ok(next)
    {
      RememberNextExactly(cert, inner, next);
    }
  }

  lemma RememberNextExactly(cert: RevokedCert, inner: Bytes, next: RevokedCert)
    ensures RememberNext(cert, inner) == Step(Ok(next), |inner|) <==> exists ext :: AreExtensionFields(inner, ext) && Remember(cert, ext) == Ok(next)
  {
    hide Remember, AreExtensionFields, ExtensionFromDer;
    forall ext
      ensures ExtensionFromDer(inner) == Step(Ok(ext), |inner|) <==> AreExtensionFields(inner, ext)
    {
      FieldsOfExtension(inner, ext);
    }
  }

  lemma {:induction false} ExtensionsAreRemembered(cert: RevokedCert, parts: seq<Bytes>, exts: seq<Extension>)
    requires EachMeans(IsExtension, parts, exts) && Remembered(cert, exts).Ok?
    ensures RememberAll(cert, Concat(parts)) == Remembered(cert, exts)
    decreases |parts|
  {
    hide RememberAll, Remember, IsExtension, NextExtension;
    var b := Concat(parts);
    RememberAllStep(cert, b);
    if parts != [] {
      var e, rest := parts[0], Concat(parts[1..]);
      assert b == e + rest && b[..|e|] == e && b[|e|..] == rest;
      var next := Remember(cert, exts[0]).value;
      NextExactly(cert, b, next, |e|);
      ExtensionNotEmpty(e, exts[0]);
      ExtensionsAreRemembered(next, parts[1..], exts[1..]);
    }
  }

  lemma ExtensionNotEmpty(e: Bytes, ext: Extension)
    requires IsExtension(e, ext)
    ensures e != []
  {
    hide IsTagged;
    var inner :| IsTagged(e, 0x30, inner) && AreExtensionFields(inner, ext);
    TaggedBegins(e, 0x30, inner);
  }

  lemma {:induction false} RememberedAreExtensions(cert: RevokedCert, b: Bytes) returns (parts: seq<Bytes>, exts: seq<Extension>)
    requires RememberAll(cert, b).Ok?
    ensures b == Concat(parts) && EachMeans(IsExtension, parts, exts) && Remembered(cert, exts) == RememberAll(cert, b)
    decreases |b|
  {
    hide RememberAll, Remember, IsExtension, NextExtension;
    RememberAllStep(cert, b);
    parts, exts := [], [];
    if b != [] {
      var s := NextExtension(cert, b);
      NextExactly(cert, b, s.result.value, s.used);
      var e, rest := b[..s.used], b[s.used..];
      var ext :| IsExtension(e, ext) && Remember(cert, ext) == Ok(s.result.value);
      ExtensionNotEmpty(e, ext);
      parts, exts := RememberedAreExtensions(s.result.value, rest);
      parts, exts := [e] + parts, [ext] + exts;
      assert parts[1..] + [] == parts[1..] && exts[1..] + [] == exts[1..] && b == e + rest;
    }
  }

  lemma RememberAllExactly(cert: RevokedCert, b: Bytes, after: RevokedCert)
    ensures RememberAll(cert, b) == Ok(after) <==> exists exts :: IsList(IsExtension, b, exts) && SaysMore(cert, exts, after)
  {
    hide RememberAll, Remembered, SaysMore, EachMeans, IsExtension;
    if RememberAll(cert, b) == Ok(after) {
      var parts, exts := RememberedAreExtensions(cert, b);
      RememberedExactly(cert, exts, after);
      assert IsList(IsExtension, b, exts);
    }
    forall exts | IsList(IsExtension, b, exts) && SaysMore(cert, exts, after)
      ensures RememberAll(cert, b) == Ok(after)
    {
      var parts :| b == Concat(parts) && EachMeans(IsExtension, parts, exts);
      RememberedExactly(cert, exts, after);
      ExtensionsAreRemembered(cert, parts, exts);
    }
  }

  // ----- reading an entry

  lemma FieldOfExtensions(b: Bytes, serial: Bytes, date: int, cert: RevokedCert)
    ensures
      var s := ExpectTag(b, TAG_SEQUENCE);
      && cert.serial == serial && cert.revocationDate == date
      && (if b == [] then cert.reason.None? && cert.invalidityDate.None?
          else s.result.Ok? && s.used == |b| && RememberAll(RevokedCert(serial, date, None, None), s.result.value) == Ok(cert))
      <==> cert.serial == serial && cert.revocationDate == date && IsExtensionField(b, cert)
  {
    hide ExpectTag, RememberAll, IsList, IsExtension, IsTagged, OneValue;
    assert b[..|b|] == b;
    var s := ExpectTag(b, TAG_SEQUENCE);
    if s.result.Ok? {
      TagExactly(b, TAG_SEQUENCE, s.result.value, s.used);
    }
    forall list | IsTagged(b, 0x30, list)
      ensures s == Step(Ok(list), |b|) && b != []
    {
      TagExactly(b, TAG_SEQUENCE, list, |b|);
      TaggedBegins(b, 0x30, list);
    }
    forall list
      ensures RememberAll(RevokedCert(serial, date, None, None), list) == Ok(cert)
         <==> exists exts :: IsList(IsExtension, list, exts) && SaysMore(RevokedCert(serial, date, None, None), exts, cert)
    {
      RememberAllExactly(RevokedCert(serial, date, None, None), list, cert);
    }
  }

  lemma FieldsOfEntry(b: Bytes, cert: RevokedCert)
    ensures EntryContents(b) == Step(Ok(cert), |b|) <==> AreEntryFields(b, cert)
  {
    hide EntryContents, IsTagged, DenotesTime, IsExtensionField;
    if EntryContents(b) == Step(Ok(cert), |b|) {
      ReadEntryHasFields(b, cert);
    }
    forall f, g, h |
        && b == f + (g + h)
        && IsTagged(f, 0x02, cert.serial) && DenotesTime(g, cert.revocationDate) && IsExtensionField(h, cert)
      ensures EntryContents(b) == Step(Ok(cert), |b|)
    {
      EntryFieldsAreRead(b, cert, f, g, h);
    }
  }

  lemma ReadEntryHasFields(b: Bytes, cert: RevokedCert)
    requires EntryContents(b) == Step(Ok(cert), |b|)
    ensures AreEntryFields(b, cert)
  {
    hide ExpectTag, Time.FromDer, RememberAll, IsTagged, DenotesTime, IsExtensionField;
    var serial := ExpectTag(b, TAG_INTEGER);
    TagExactly(b, TAG_INTEGER, serial.result.value, serial.used);
    var behind := b[serial.used..];
    var date := Time.FromDer(behind);
    TimeUsed(behind);
    TimeExactly(behind, date.result.value, date.used);
    var last := b[serial.used + date.used..];
    assert last == behind[date.used..];
    var blank := RevokedCert(serial.result.value, date.result.value, None, None);
    FieldOfExtensions(last, blank.serial, blank.revocationDate, cert);
    if last != [] {
      RememberAllKeeps(blank, ExpectTag(last, TAG_SEQUENCE).result.value, cert);
    }
    assert b == b[..serial.used] + (behind[..date.used] + last);
  }

  lemma RememberAllKeeps(cert: RevokedCert, b: Bytes, after: RevokedCert)
    requires RememberAll(cert, b) == Ok(after)
    ensures after.serial == cert.serial && after.revocationDate == cert.revocationDate
  {
    hide RememberAll, IsList, OneValue;
    RememberAllExactly(cert, b, after);
  }

  lemma EntryFieldsAreRead(b: Bytes, cert: RevokedCert, f: Bytes, g: Bytes, h: Bytes)
    requires b == f + (g + h)
    requires IsTagged(f, 0x02, cert.serial) && DenotesTime(g, cert.revocationDate) && IsExtensionField(h, cert)
    ensures EntryContents(b) == Step(Ok(cert), |b|)
  {
    hide ExpectTag, Time.FromDer, RememberAll, IsTagged, DenotesTime, IsExtensionField;
    assert b[..|f|] == f && b[|f|..] == g + h && (g + h)[..|g|] == g;
    assert b[|f| + |g|..] == h;
    TagExactly(b, TAG_INTEGER, cert.serial, |f|);
    TimeExactly(g + h, cert.revocationDate, |g|);
    FieldOfExtensions(h, cert.serial, cert.revocationDate, cert);
  }

  /** Exactly the bytes of an entry are read, and as what they say. */
  lemma EntryExactly(b: Bytes, cert: RevokedCert, used: nat)
    ensures RevokedCertFromDer(b) == Step(Ok(cert), used) <==> used <= |b| && IsEntry(b[..used], cert)
  {
    hide Nested, EntryContents, AreEntryFields, IsTagged;
    NestedExactly(b, TAG_SEQUENCE, TrailingData(DerTypeId.RevokedCertEntry), EntryContents, cert, used);
    forall inner
      ensures EntryContents(inner) == Step(Ok(cert), |inner|) <==> AreEntryFields(inner, cert)
    {
      FieldsOfEntry(inner, cert);
    }
  }

  lemma EntriesAreRead()
    ensures Progress(RevokedCertFromDer) && Reads(RevokedCertFromDer, IsEntry)
  {
    hide RevokedCertFromDer, IsEntry;
    EntryProgress();
    forall b, cert, used
      ensures ReadsAt(RevokedCertFromDer, IsEntry, b, cert, used)
    {
      EntryExactly(b, cert, used);
    }
  }

  // ----- all entries

  /** A CRL can be read to its end, and has these entries. */
  lemma EntriesExactly(b: Bytes, certs: seq<RevokedCert>)
    ensures Entries(b) == Oks(certs) <==> IsList(IsEntry, b, certs)
  {
    hide RevokedCertFromDer, IsEntry, Progress, Reads, IsList, Items, Oks;
    EntriesAreRead();
    ListExactly(RevokedCertFromDer, IsEntry, b, certs);
  }

  // ----- looking for a serial

  /** An entry with this serial stands behind some others; what follows it does not matter. */
  ghost predicate ListsSerial(b: Bytes, serial: Bytes) {
    exists used: nat, others, cert: RevokedCert ::
      used <= |b| && IsList(IsEntry, b[..used], others + [cert]) && cert.serial == serial
  }

  /** There are entries and nothing else, and none has this serial. */
  ghost predicate ListsOtherSerials(b: Bytes, serial: Bytes) {
    exists certs :: IsList(IsEntry, b, certs) && forall cert: RevokedCert :: cert in certs ==> cert.serial != serial
  }

  lemma {:induction false} ScanSucceeds(entries: seq<Result<RevokedCert>>, serial: Bytes) returns (certs: seq<RevokedCert>)
    requires Scan(entries, serial).Ok?
    ensures |certs| <= |entries| && entries[..|certs|] == Oks(certs)
    ensures Scan(entries, serial).value.Some? ==> certs != [] && certs[|certs| - 1].serial == serial
    ensures Scan(entries, serial).value.None? ==> |certs| == |entries| && forall cert :: cert in certs ==> cert.serial != serial
  {
    hide Oks;
    certs := [];
    if entries == [] {
      NoOks<RevokedCert>();
    } else {
      var first := entries[0].value;
      OneOk(first);
      if first.serial == serial {
        certs := [first];
        assert entries[..1] == [Ok(first)];
      } else {
        var others := ScanSucceeds(entries[1..], serial);
        certs := [first] + others;
        OksStep(certs);
        assert entries[..|certs|] == [Ok(first)] + entries[1..][..|others|];
        assert Oks(certs) == [Oks(certs)[0]] + Oks(certs)[1..] && certs[1..] == others;
      }
    }
  }

  lemma NoOks<T>()
    ensures Oks<T>([]) == []
  {
  }

  lemma OneOk<T>(x: T)
    ensures Oks([x]) == [Ok(x)]
  {
  }

  lemma {:induction false} ScanPasses(entries: seq<Result<RevokedCert>>, certs: seq<RevokedCert>, serial: Bytes)
    requires |certs| <= |entries| && entries[..|certs|] == Oks(certs)
    ensures (exists cert :: cert in certs && cert.serial == serial) ==> Scan(entries, serial).Ok? && Scan(entries, serial).value.Some?
    ensures |certs| == |entries| && (forall cert :: cert in certs ==> cert.serial != serial) ==> Scan(entries, serial) == Ok(None)
    decreases |certs|
  {
    hide Oks;
    if certs != [] {
      OksStep(certs);
      assert entries[0] == entries[..|certs|][0] == Ok(certs[0]);
      assert entries[1..][..|certs| - 1] == entries[..|certs|][1..] == Oks(certs[1..]);
      ScanPasses(entries[1..], certs[1..], serial);
      assert forall cert :: cert in certs <==> cert == certs[0] || cert in certs[1..];
    }
  }

  /** The scan finds an entry exactly when one with the serial is listed, and finds none exactly when
      all entries can be read and have other serials. */
  lemma ScanExactly(b: Bytes, serial: Bytes)
    ensures
      var found := Scan(Entries(b), serial);
      && (found.Ok? && found.value.Some? <==> ListsSerial(b, serial))
      && (found == Ok(None) <==> ListsOtherSerials(b, serial))
  {
    hide Entries, Scan, Oks, IsEntry, IsList;
    var entries := Entries(b);
    if Scan(entries, serial).Ok? {
      var certs := ScanSucceeds(entries, serial);
      EntriesInFront(b, certs);
      if Scan(entries, serial).value.Some? {
        assert certs == certs[..|certs| - 1] + [certs[|certs| - 1]];
      } else {
        assert entries[..|certs|] == entries;
        EntriesExactly(b, certs);
      }
    }
    forall used: nat, others, cert: RevokedCert |
        used <= |b| && IsList(IsEntry, b[..used], others + [cert]) && cert.serial == serial
      ensures Scan(entries, serial).Ok? && Scan(entries, serial).value.Some?
    {
      EntriesInFront(b, others + [cert]);
      ScanPasses(entries, others + [cert], serial);
      assert cert in others + [cert];
    }
    forall certs | IsList(IsEntry, b, certs) && forall cert: RevokedCert :: cert in certs ==> cert.serial != serial
      ensures Scan(entries, serial) == Ok(None)
    {
      EntriesExactly(b, certs);
      assert |Oks(certs)| == |certs| && entries[..|certs|] == entries;
      ScanPasses(entries, certs, serial);
    }
  }

  lemma EntriesInFront(b: Bytes, certs: seq<RevokedCert>)
    ensures |certs| <= |Entries(b)| && Entries(b)[..|certs|] == Oks(certs)
       <==> exists used: nat :: used <= |b| && IsList(IsEntry, b[..used], certs)
  {
    hide RevokedCertFromDer, IsEntry, Progress, Reads, IsList, Items, Oks;
    EntriesAreRead();
    FrontExactly(RevokedCertFromDer, IsEntry, b, certs);
  }

  lemma {:induction false} CollectExactly(entries: seq<Result<RevokedCert>>, certs: seq<RevokedCert>)
    ensures Collect(entries) == Ok(certs) <==> entries == Oks(certs)
  {
    hide Oks;
    if entries == [] {
      NoOks<RevokedCert>();
    } else if certs != [] {
      CollectExactly(entries[1..], certs[1..]);
      OksStep(certs);
      assert Oks(certs) == [Oks(certs)[0]] + Oks(certs)[1..];
      assert entries == [entries[0]] + entries[1..] && certs == [certs[0]] + certs[1..];
    }
  }

  /** The index can be built exactly when all entries can be read, and holds exactly their serials, each
      with the last entry that has it. */
  lemma IndexExactly(b: Bytes, certs: seq<RevokedCert>)
    ensures IsList(IsEntry, b, certs) <==> Collect(Entries(b)) == Ok(certs)
    ensures
      IsList(IsEntry, b, certs) ==>
        && ToOwned(b).Ok?
        && forall serial ::
             && (serial in ToOwned(b).value <==> exists cert: RevokedCert :: cert in certs && cert.serial == serial)
             && (serial in ToOwned(b).value ==> exists i :: 0 <= i < |certs| && LastAt(certs, serial, i) && ToOwned(b).value[serial] == certs[i])
  {
    hide Entries, Oks, IsEntry, IsList, Collect, Index;
    EntriesExactly(b, certs);
    CollectExactly(Entries(b), certs);
    forall serial
      ensures serial in Index(certs) <==> exists cert: RevokedCert :: cert in certs && cert.serial == serial
      ensures serial in Index(certs) ==> exists i :: 0 <= i < |certs| && LastAt(certs, serial, i) && Index(certs)[serial] == certs[i]
    {
      var i := IndexHoldsLast(certs, serial);
      if cert: RevokedCert :| cert in certs && cert.serial == serial {
        var j :| 0 <= j < |certs| && certs[j] == cert;
        assert OccursAt(certs, serial, j);
      }
      if Occurs(certs, serial) {
        var j :| OccursAt(certs, serial, j);
        assert certs[j] in certs;
      }
    }
  }
}
