/** The entries of a CRL: the scan over their encoding and the index built from it (src/crl.rs). */
module RevokedCerts {
  import opened Basics
  import opened Der
  import Time

  datatype RevocationReason =
    | Unspecified
    | KeyCompromise
    | CaCompromise
    | AffiliationChanged
    | Superseded
    | CessationOfOperation
    | CertificateHold
    | RemoveFromCrl
    | PrivilegeWithdrawn
    | AaCompromise

  datatype RevokedCert = RevokedCert(
    serial: Bytes,
    revocationDate: int,
    reason: Option<RevocationReason>,
    invalidityDate: Option<int>)

  // ----- extensions of an entry

  const TAG_ENUM: Byte := 0x0A

  /** 2.5.29, the arc of standard extensions. */
  const ID_CE: Bytes := [85, 29]

  datatype Extension = CertExtension(critical: bool, id: Bytes, value: Bytes) {
    function Unsupported(): Outcome {
      if critical then Err(UnsupportedCriticalExtension) else DONE
    }
  }

  function ExtensionFromDer(b: Bytes): (s: Step<Extension>)
    ensures s.used <= |b|
  {
    var id := ExpectTag(b, TAG_OID);
    if id.result.Err? then Step(Err(id.result.error), id.used) else
    var critical := BoolFromDer(b[id.used..]);
    if critical.result.Err? then Step(Err(critical.result.error), id.used + critical.used) else
    var value := ExpectTag(b[id.used + critical.used..], TAG_OCTET_STRING);
    Step(if value.result.Ok? then Ok(CertExtension(critical.result.value, id.result.value, value.result.value))
         else Err(value.result.error), id.used + critical.used + value.used)
  }

  function ReasonOfCode(code: Byte): Result<RevocationReason> {
    match code
    case 0 => Ok(Unspecified)
    case 1 => Ok(KeyCompromise)
    case 2 => Ok(CaCompromise)
    case 3 => Ok(AffiliationChanged)
    case 4 => Ok(Superseded)
    case 5 => Ok(CessationOfOperation)
    case 6 => Ok(CertificateHold)
    case 8 => Ok(RemoveFromCrl)
    case 9 => Ok(PrivilegeWithdrawn)
    case 10 => Ok(AaCompromise)
    case _ => Err(UnsupportedRevocationReason)
  }

  function ReasonFromDer(b: Bytes): Step<RevocationReason> {
    var s := ExpectTag(b, TAG_ENUM);
    Step(if s.result.Err? then Err(s.result.error)
         else if |s.result.value| != 1 then Err(BadDer)
         else ReasonOfCode(s.result.value[0]), s.used)
  }

  /** `remember_extension`: an extension may be set once. */
  function Remember(cert: RevokedCert, ext: Extension): Result<RevokedCert> {
    if |ext.id| != |ID_CE| + 1 || ext.id[..2] != ID_CE then
      var _ :- ext.Unsupported();
      Ok(cert)
    else
      match ext.id[2]
      case 21 =>
        if cert.reason.Some? then Err(ExtensionValueInvalid)
        else
          var reason :- ReadAll(ext.value, TrailingData(DerTypeId.RevocationReason), ReasonFromDer);
          Ok(cert.(reason := Some(reason)))
      case 24 =>
        if cert.invalidityDate.Some? then Err(ExtensionValueInvalid)
        else
          var date :- ReadAll(ext.value, BadDer, Time.FromDer);
          Ok(cert.(invalidityDate := Some(date)))
      case 29 => Err(UnsupportedIndirectCrl)
      case _ =>
        var _ :- ext.Unsupported();
        Ok(cert)
  }

  /** What is done inside one SEQUENCE: an extension is read and remembered, and only then has the
      SEQUENCE to be used up. */
  function RememberNext(cert: RevokedCert, b: Bytes): Step<RevokedCert> {
    var ext := ExtensionFromDer(b);
    Step(if ext.result.Ok? then Remember(cert, ext.result.value) else Err(ext.result.error), ext.used)
  }

  /** One SEQUENCE after the other, each one extension. */
  function RememberAll(cert: RevokedCert, b: Bytes): Result<RevokedCert>
    decreases |b|
  {
    if b == [] then Ok(cert)
    else
      var s := Nested(b, TAG_SEQUENCE, TrailingData(DerTypeId.RevokedCertificateExtension), inner => RememberNext(cert, inner));
      var next :- s.result;
      RememberAll(next, b[s.used..])
  }

  // ----- entries

  function EntryContents(b: Bytes): Step<RevokedCert> {
    var serial := ExpectTag(b, TAG_INTEGER);
    if serial.result.Err? then Step(Err(InvalidSerialNumber), serial.used) else
    var date := Time.FromDer(b[serial.used..]);
    var start := serial.used + date.used;
    if date.result.Err? then Step(Err(date.result.error), start) else
    var cert := RevokedCert(serial.result.value, date.result.value, None, None);
    if start == |b| then Step(Ok(cert), start) else
    var extensions := ExpectTag(b[start..], TAG_SEQUENCE);
    Step(if extensions.result.Err? then Err(extensions.result.error) else RememberAll(cert, extensions.result.value),
         start + extensions.used)
  }

  /** `BorrowedRevokedCert::from_der` */
  function RevokedCertFromDer(b: Bytes): Step<RevokedCert> {
    Nested(b, TAG_SEQUENCE, TrailingData(DerTypeId.RevokedCertEntry), EntryContents)
  }

  lemma EntryProgress()
    ensures Progress(RevokedCertFromDer)
  {
    hide EntryContents;
  }

  function Entries(b: Bytes): seq<Result<RevokedCert>> {
    EntryProgress();
    Items(RevokedCertFromDer, b)
  }

  // ----- the scan

  /** The first entry with this serial, unless something malformed comes before it. */
  function Scan(entries: seq<Result<RevokedCert>>, serial: Bytes): Result<Option<RevokedCert>> {
    if entries == [] then Ok(None)
    else if entries[0].Err? then Err(entries[0].error)
    else if entries[0].value.serial == serial then Ok(Some(entries[0].value))
    else Scan(entries[1..], serial)
  }

  /** `BorrowedCertRevocationList::find_serial` */
  method FindSerialByScan(revokedCerts: Bytes, serial: Bytes) returns (res: Result<Option<RevokedCert>>)
    ensures res == Scan(Entries(revokedCerts), serial)
  {
    EntryProgress();
    hide RevokedCertFromDer;
    var entries := new DerIterator(revokedCerts, RevokedCertFromDer);
    while true
      invariant entries.Valid() && fresh(entries.reader)
      invariant Scan(Entries(revokedCerts), serial) == Scan(entries.Remaining(), serial)
      decreases |entries.reader.input| - entries.reader.pos
    {
      ghost var before := entries.Remaining();
      var entry := entries.Next();
      if entry.None? {
        return Ok(None);
      }
      assert before[0] == entry.value && before[1..] == entries.Remaining();
      if entry.value.Err? {
        return Err(entry.value.error);
      }
      if entry.value.value.serial == serial {
        return Ok(Some(entry.value.value));
      }
    }
  }

  // ----- the index

  /** `collect::<Result<Vec<_>, _>>` */
  function Collect(entries: seq<Result<RevokedCert>>): Result<seq<RevokedCert>> {
    if entries == [] then Ok([])
    else
      var first :- entries[0];
      var others :- Collect(entries[1..]);
      Ok([first] + others)
  }

  /** Collecting into a map: a later entry replaces an earlier one with the same serial. */
  function Index(certs: seq<RevokedCert>): map<Bytes, RevokedCert> {
    if certs == [] then map[]
    else
      var last := certs[|certs| - 1];
      Index(certs[..|certs| - 1])[last.serial := last]
  }

  /** `to_owned`, as far as the entries are concerned. */
  function ToOwned(revokedCerts: Bytes): Result<map<Bytes, RevokedCert>> {
    var certs :- Collect(Entries(revokedCerts));
    Ok(Index(certs))
  }

  /** `OwnedCertRevocationList::find_serial` */
  function FindInIndex(index: map<Bytes, RevokedCert>, serial: Bytes): Option<RevokedCert> {
    if serial in index then Some(index[serial]) else None
  }

  // ----- the two agree

  predicate OccursAt(certs: seq<RevokedCert>, serial: Bytes, i: int) {
    0 <= i < |certs| && certs[i].serial == serial
  }

  ghost predicate FirstAt(certs: seq<RevokedCert>, serial: Bytes, i: int) {
    OccursAt(certs, serial, i) && forall j :: OccursAt(certs, serial, j) ==> i <= j
  }

  ghost predicate LastAt(certs: seq<RevokedCert>, serial: Bytes, i: int) {
    OccursAt(certs, serial, i) && forall j :: OccursAt(certs, serial, j) ==> j <= i
  }

  ghost predicate Occurs(certs: seq<RevokedCert>, serial: Bytes) {
    exists i :: OccursAt(certs, serial, i)
  }

  lemma {:induction false} ScanFindsFirst(entries: seq<Result<RevokedCert>>, serial: Bytes) returns (i: int)
    requires Collect(entries).Ok?
    ensures
      var certs := Collect(entries).value;
      if Occurs(certs, serial) then FirstAt(certs, serial, i) && Scan(entries, serial) == Ok(Some(certs[i]))
      else Scan(entries, serial) == Ok(None)
  {
    i := 0;
    if entries != [] {
      var certs, others := Collect(entries).value, Collect(entries[1..]).value;
      assert forall j :: OccursAt(certs, serial, j) && j > 0 ==> OccursAt(others, serial, j - 1);
      assert forall j :: OccursAt(others, serial, j) ==> OccursAt(certs, serial, j + 1);
      if entries[0].value.serial == serial {
        assert OccursAt(certs, serial, 0);
      } else {
        var k := ScanFindsFirst(entries[1..], serial);
        i := k + 1;
      }
    }
  }

  lemma {:induction false} IndexHoldsLast(certs: seq<RevokedCert>, serial: Bytes) returns (i: int)
    ensures serial in Index(certs) <==> Occurs(certs, serial)
    ensures Occurs(certs, serial) ==> LastAt(certs, serial, i) && Index(certs)[serial] == certs[i]
  {
    i := 0;
    if certs != [] {
      var k := |certs| - 1;
      var init := certs[..k];
      i := IndexHoldsLast(init, serial);
      assert forall j :: OccursAt(certs, serial, j) && j < k ==> OccursAt(init, serial, j);
      assert forall j :: OccursAt(init, serial, j) ==> OccursAt(certs, serial, j);
      if certs[k].serial == serial {
        i := k;
        assert OccursAt(certs, serial, k);
      }
    }
  }

  /** Whenever the index can be built, the scan never fails and finds an entry exactly when the index
      does: the scan the first occurrence of the serial, the index the last one. */
  lemma IndexAgreesWithScan(revokedCerts: Bytes, serial: Bytes) returns (first: int, last: int)
    requires ToOwned(revokedCerts).Ok?
    ensures
      var certs := Collect(Entries(revokedCerts)).value;
      var scan := Scan(Entries(revokedCerts), serial);
      var indexed := FindInIndex(ToOwned(revokedCerts).value, serial);
      if Occurs(certs, serial) then
        && FirstAt(certs, serial, first) && LastAt(certs, serial, last)
        && scan == Ok(Some(certs[first])) && indexed == Some(certs[last])
      else scan == Ok(None) && indexed == None
  {
    hide Entries;
    first := ScanFindsFirst(Entries(revokedCerts), serial);
    last := IndexHoldsLast(Collect(Entries(revokedCerts)).value, serial);
  }

  /** A serial that occurs once is the same entry for both. */
  lemma UniqueSerialSameEntry(revokedCerts: Bytes, serial: Bytes, i: int)
    requires ToOwned(revokedCerts).Ok?
    requires FirstAt(Collect(Entries(revokedCerts)).value, serial, i) && LastAt(Collect(Entries(revokedCerts)).value, serial, i)
    ensures Scan(Entries(revokedCerts), serial) == Ok(FindInIndex(ToOwned(revokedCerts).value, serial))
  {
    hide Entries, Scan;
    var first, last := IndexAgreesWithScan(revokedCerts, serial);
  }
}
