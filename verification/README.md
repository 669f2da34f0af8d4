# A verified model of the webpki path validator

webpki decides whether an X.509 end-entity certificate can be trusted: it searches a chain from the
certificate, through untrusted intermediates, to a trust anchor, and on the way reads DER, times, DNS
names, IP addresses, name constraints and revocation lists. This project models those parts in Dafny
and proves what they are for. Every line range below is a path and lines of the webpki repository.

How the parts fit together:

- **Bytes.** `Readers` and `Der` are the cursor and the tag-length-value reader, as a class with moving
  position and as the function each method is proved equal to. `DerCanonical` relates them to the
  encoder, and `DerMeaning` the small readers and lists to the bytes they accept. `Time` reads dates; `Calendar` compares the closed-form arithmetic with a calendar counted
  year by year and month by month.
- **Names.** `DnsNames` is the one-pass validity scanner against a grammar of labels; `DnsMatching` the
  two-cursor matcher against a comparison of labels; `DnsCoverage` what constraint matching means for
  the names that a wildcard stands for. `IpConstraints` and `IpText` do the same for CIDR matching and
  for the IP text forms, `SubjectNames` for the choice between the forms. `NameConstraints` is the walk
  over the names of a chain. `NameMeaning` says which encodings give which names and subtrees,
  `NameComparison` how a name compares with a base, form by form, and `NameConstraintMeaning` what the
  walk decides, in those terms.
- **Certificates and CRLs.** `Certificates` holds the checks on one certificate, `CertificateMeaning` what
  passing them and each of their errors means. `RevokedCerts` is the scan and the index over CRL entries,
  `EntryMeaning` what the bytes of an entry say, `Crl` the rule for when a CRL speaks for a certificate,
  `RevocationStatus` what passing the revocation check and failing it means.
- **The search.** `PathSearch` is the depth-first search with its shared counter, as imperative methods
  proved equal to specification functions. The theorems about whole runs are in `PathErrors` (only the
  counter raises the fatal error), `PathOutcome` (the run within its budget against a search without
  one), `PathMeaning` (soundness and completeness), `PathComplaints` (which errors arise where), `PathBudget` and `PathSpent` (the budget and its error),
  `PathBounds`, `PathOrder`, `PathLoops`, `PathRevocation`, `PathAborts` and `PathExamples`. `ChainBuilding.BuildChain` is the
  entry point; its contract collects them.

Two conventions. A reading operation is described by a `Step`: its result and how far it moved, also
when it failed. The search threads a `Tally`: the counter of the code and, beside it, the number of
certificate signatures and CRL signatures really verified and of calls made, which are there only to
state the budget and the bound.

Signature verification is the parameter `verify` of `ChainOptions`, a function from key and signed data
to an outcome; all theorems hold for every such function. It never returns
`MaximumSignatureChecksExceeded` (its type says so), and neither does parsing an intermediate.

## Results that contradict the documentation or intuition

- `crl_authoritative` is documented to accept a CRL when some distribution point shares a URI with it
  (src/verify_cert.rs:358-371). The code drains both name cursors after the first URI, so only the first
  URI of the CRL is compared, and only with the first distribution point of the certificate. The model
  follows the code: `Crl.IsAuthoritativeFor` has the exact rule, `Crl.SharedUriIsNotEnough` a family of
  inputs where a shared URI is not found, and `Crl.AuthoritySharesUri` what does hold.
- A wildcard can be caught by a constraint with a leading dot although none of its names lies in that
  subtree: "*.b.c" matches ".a.b.c". `DnsCoverage.CaughtExactly` gives the exact condition under which
  matching a constraint means standing for a name under it, `DnsCoverage.LeadingDotOverreach` the input.
- The budget error is meant to end the search: it is not subject to ranking (src/error.rs:240-241), and
  the loop in which it is raised returns it at once (src/verify_cert.rs:671). That holds inside a loop,
  and in every loop over intermediates that a call with this error returns to. But the error of the
  anchor loop becomes the default error of the loop over the intermediates (src/verify_cert.rs:209-214),
  where it has rank 0, so any later error with a rank replaces it. `PathSpent.BudgetErrorIsReplaced` is
  an input that exceeds the budget and ends with `BadDer`; `PathSpent.ReportedExactly` says exactly which
  runs end with the budget error, and `PathSpent.SpentSearch` the same without regard to order for calls
  that begin with a spent budget.
- `bit_string_flags` indexes the last flag octet without looking whether there is one (src/der.rs:343).
  The code aborts there for a BIT STRING without flags and padding, and for nothing else
  (`Certificates.LastFlagOctet`, `Certificates.FlaglessExactly`). A run can come to it through the key
  usage of an issuer and through the reasons of a distribution point, which are parsed only when a CRL is
  looked for. The methods of the model have the same index, and require that the run does not come to it.
  `PathAborts.AbortsExactly` says which runs do: none without a path on which the walk down from an anchor
  comes to such flags, and every run that fails within its budget and has one.
  `PathAborts.ReadableNeverAborts` says which inputs never abort, and `PathExamples` has concrete inputs
  that do.

## Model

| member | source | states |
|---|---|---|
| ChainBuilding.BuildChain | src/verify_cert.rs:132-134 | success exactly with a valid path whose search fits in the budget; failure with the counter at most 100 only without a valid path, and then with the most specific of the errors that arise on the paths the search reaches; what is wrong with the end entity itself (expired, not yet valid, used as a CA, without the purpose) is reported as just that, before any signature; the budget error exactly when no later error replaces it; at most 100 certificate signatures verified and at most as many CRL signatures; calls bounded by the arrangements of up to seven pool entries |
| PathSearch.BuildChainInner | src/verify_cert.rs:136-249 | result and counters of the two loops, the depth limit and the shared counter are those of the recursive specification; the assertion that an end entity has no sub-CAs holds |
| PathSearch.TryTrustAnchors | src/verify_cert.rs:659-676 | the loop keeps the best error so far and stops at success or at the budget error, as its specification by recursion on the anchors |
| PathSearch.TryAnchor | src/verify_cert.rs:177-207 | one anchor: subject, name constraints, then signatures from the anchor down |
| PathSearch.ClimbFrom | src/verify_cert.rs:214-240 | one intermediate: parse outcome, subject, no repeated key and subject along the linked chain, name constraints |
| PathSearch.CheckSignaturesDown | src/verify_cert.rs:251-294 | walks the chain with the key, subject and key usage of the certificate above; the counter is taken before each verification |
| PathSearch.CheckRevocation | src/verify_cert.rs:307-356 | the first authoritative CRL decides; its preconditions are the issuer assertion of the code, which therefore never fires, and that it does not come to flags without an octet |
| PathErrors.PropertiesNotFatal | src/verify_cert.rs:414-441 | the checks on one certificate never report the fatal error |
| PathErrors.ConstraintsNotFatal | src/subject_name/verify.rs:99-151 | name constraints never report the fatal error, whatever the bytes |
| PathErrors.SignedNotFatal | src/verify_cert.rs:307-356 | signature and revocation checks never report the fatal error |
| PathOutcome.SignaturesWithinBudget | src/verify_cert.rs:251-294 | the walk gives the outcome without a budget exactly when the counter can take its cost, else the budget error with the counter beyond 100 |
| PathOutcome.AnchorsWithinBudget | src/verify_cert.rs:177-212 | the anchor loop within its budget: accepts exactly when some anchor does, else costs the sum over the anchors and returns the most specific error |
| PathOutcome.SearchWithinBudget | src/verify_cert.rs:136-249 | for a search from any certificate and any counter: it succeeds exactly when something is accepted and the signatures up to and with the first acceptance, in search order, fit in the budget; a failure within the budget reports the most specific error of the tree, one beyond it the budget error or an error of the tree |
| PathOutcome.FailureCostsAll | src/verify_cert.rs:177-249 | a search that accepts nothing checks the signatures of its whole tree, a number that does not depend on the order |
| PathMeaning.AcceptsExactly | src/verify_cert.rs:136-294 | the search without a budget accepts exactly when a valid path exists: at most six pool intermediates, issuers and subjects linked, every certificate passing at its own depth, every holder's name constraints holding below it, every signature and status checked, no key and subject twice |
| PathMeaning.SoundAndComplete | src/verify_cert.rs:136-294 | a run succeeds exactly when there is a valid path and the signatures up to the first one found fit in the budget; a run that fails with the counter at most 100 has no valid path |
| PathMeaning.NamesAllowedExactly | src/verify_cert.rs:163-175 | whether the subject common name counts depends on the certificate directly below the holder of the constraints |
| PathMeaning.RepeatsExactly | src/verify_cert.rs:222-234 | walking the linked chain finds a repetition exactly when key and subject occur on the path |
| PathMeaning.SignedExactly | src/verify_cert.rs:260-291 | the walk down is: each certificate verified with the key and key usage of the next one, the last with those of the anchor |
| PathComplaints.RaisedExactly | src/verify_cert.rs:149-249 | an error is raised in the tree of the search exactly when it arises at the last certificate of some path that may be climbed: from its own checks, as no known issuer, from an anchor with its subject, or from an intermediate |
| PathComplaints.MostSpecificExactly | src/verify_cert.rs:659-676 | so the error of a run that fails within its budget is one that arises, with no more specific one arising anywhere |
| PathComplaints.SignaturesComplainExactly | src/verify_cert.rs:251-294 | the walk from an anchor down fails with what is wrong at the first certificate from the top that is not signed by the key above or whose status is not good enough |
| PathComplaints.AnchorComplainsExactly | src/verify_cert.rs:177-207 | an anchor gives `UnknownIssuer` exactly for another subject or when the walk does, else the error of its name constraints or of the walk |
| PathComplaints.EntryComplainsExactly | src/verify_cert.rs:214-240 | an intermediate gives its parse error, `UnknownIssuer` for another subject or a repetition, or the error of its name constraints |
| PathComplaints.EndEntityFails | src/verify_cert.rs:149-157 | what is wrong with the end entity itself ends the search at once, for any counter |
| PathBudget.SearchSpends | src/verify_cert.rs:251-294 | every call keeps: the counter never goes back, min(counter, 100) certificate signatures have been verified, at most one CRL signature beside each, and beyond 100 nothing succeeds |
| PathBudget.RunIsInBudget | src/verify_cert.rs:251-294 | a whole run verifies at most 100 certificate signatures, and no more CRL signatures than those |
| PathSpent.SpentSearch | src/verify_cert.rs:209-214 | with nothing left to spend a call fails with the budget error exactly when some intermediate leads to a call that does, or an anchor is tried and no intermediate ends with an error that has a rank |
| PathSpent.ReportedExactly | src/verify_cert.rs:209-294 | for every counter within the budget: where the budget runs out, and whether a later error replaces the report, decide exactly which calls end with the budget error |
| PathSpent.NothingLeft | src/verify_cert.rs:263-266 | the two descriptions agree with nothing left |
| PathSpent.BudgetErrorIsReplaced | src/verify_cert.rs:659-676 | 101 anchors tried in vain and one unreadable intermediate: the counter is 101 and the error `BadDer` |
| PathAborts.AbortsExactly | src/verify_cert.rs:251-356 | a run comes to flags without an octet only if some path may be climbed from the end entity, everything above some certificate on it is signed and not revoked from an anchor down, and the check of that certificate comes to such flags; a run that fails within its budget does so exactly then |
| PathAborts.AbortsOnAPath | src/verify_cert.rs:136-294 | the same for a run from any certificate and any counter, with the path |
| PathAborts.ReadableNeverAborts | src/verify_cert.rs:281-283 | without revocation checking, or when the flags of all key usages of intermediates and of all reasons of distribution points have an octet, no run aborts |
| PathAborts.AbortsOnFlaglessIssuer | src/der.rs:326-350 | for one intermediate and a CRL of its own: the run aborts exactly when its key usage begins with an empty BIT STRING |
| PathAborts.AbortsOnFlaglessReasons | src/cert.rs:300-302 | for one distribution point with reasons and a CRL of the same issuer: the run aborts exactly when the contents of the reasons are one zero octet |
| PathExamples.BudgetErrorLost | src/verify_cert.rs:209-214 | the same anchor 101 times and one unreadable intermediate: concrete input of `PathSpent.BudgetErrorIsReplaced` |
| PathExamples.KeyUsageWithoutFlags | src/der.rs:337-343 | a concrete chain of three aborts with the key usage 03 01 00 and not with 03 02 01 02 |
| PathExamples.ReasonsWithoutFlags | src/cert.rs:300-302 | a concrete chain of two without any key usage aborts on the reasons of its distribution point |
| Certificates.ReadBitStringFlags | src/der.rs:326-350 | the checks and the index of the code, in range on every input but the excluded one |
| Certificates.LastFlagOctet | src/der.rs:337-343 | where the code comes to the index, it is in range exactly when the contents are not one zero octet |
| Certificates.FlaglessExactly | src/verify_cert.rs:639-656 | a key usage leads there exactly when it begins with the octets 3, 1, 0 |
| Certificates.CheckKeyUsage | src/verify_cert.rs:637-656 | absent, malformed, without or with the bit: the outcome and error of each |
| PathBounds.SearchCalls | src/verify_cert.rs:149-161 | with one different pool entry on the path for each level used, the calls are bounded by the remaining height and the unused entries |
| PathBounds.RunIsBounded | src/verify_cert.rs:214-248 | for a pool of n at most the sum over i = 0..7 of n(n-1)...(n-i+1) calls |
| PathOrder.OrderDoesNotMatter | src/verify_cert.rs:177-249 | a run that fails within its budget fails on every permutation of anchors and intermediates, with the same counter and an error of the same rank, the maximum over all errors raised |
| PathOutcome.MostSpecificStep | src/error.rs:185-195 | keeping the better of two errors at each turn ends with one that none outranks |
| Basics.ClassesOfErrors | src/error.rs:183-245 | what a certificate fails outranks what is not supported, that outranks malformed encodings, and those outrank `UnknownIssuer` and the budget error, in whatever order they come |
| Basics.CertificateErrorsInOrder | src/error.rs:198-216 | the order among what a certificate may fail, from the time down to an impossible validity |
| Basics.ErrorsOfOnePlace | src/error.rs:198-213 | which of them tie, so that the earlier one is reported |
| PathLoops.CutRepeats | src/verify_cert.rs:222-240 | a path that meets every other condition and repeats key and subject between CA certificates only (above the first one if the common name of a server matters, with equal key usage if revocation is checked) can be cut to a valid one |
| PathLoops.LoopPreventionLosesNothing | src/verify_cert.rs:222-240 | so a search fails on such a pool only by exceeding its budget |
| RevocationStatus.StatusExactly | src/verify_cert.rs:307-356 | the check passes exactly when the depth asks for no status, or the first authoritative CRL is signed by the key above, that key may sign CRLs and the serial is not listed, or there is no authoritative CRL and that is allowed |
| RevocationStatus.FirstExactly | src/verify_cert.rs:326-340 | the CRL that is used is the first authoritative one, and there is none only if none is authoritative |
| RevocationStatus.CrlSignExactly | src/verify_cert.rs:637-656 | a key usage passes exactly when it is absent or begins with a well padded BIT STRING that has the cRLSign bit, gives `IssuerNotCrlSigner` exactly when it begins with one that has not, and else is malformed |
| RevocationStatus.NotListedExactly | src/verify_cert.rs:348-355 | no entry is found exactly when the bytes are a list of entries none of which has the serial, and one is found exactly when a list of entries that ends with one of this serial stands in front; for an index, when the serial is in it |
| RevocationStatus.StatusErrors | src/verify_cert.rs:307-356 | for every error: it is reported exactly when there is no authoritative CRL and it is `UnknownRevocationStatus`, or it is what is wrong first with the first authoritative CRL, the signature, then the key usage, then the serial (`CertRevoked`), then an entry that cannot be read |
| RevocationStatus.CrlSignatureErrors | src/verify_cert.rs:403-412 | which errors of signature verification are reported as errors of a CRL signature, and that no other is changed |
| RevocationStatus.KnownMeansCleared | src/verify_cert.rs:307-398 | with chain depth and no unknown status, passing means a supplied CRL with the same issuer and fitting scope, a shared URI if the certificate has distribution points, a signature by the key above, cRLSign in its key usage if it has one, and no entry with the serial |
| PathRevocation.AcceptedChainsAreCleared | src/verify_cert.rs:307-398 | every certificate on an accepted path is cleared like that |
| CertificateMeaning.PassesExactly | src/verify_cert.rs:414-441 | a certificate passes exactly when the time lies in the validity its two canonical texts denote, its basic constraints encode a CA exactly if it is used as one and no path length below the number of sub-CAs, and its purposes are encodings with the required one behind others that can be read, or may be absent |
| CertificateMeaning.ValidityExactly | src/verify_cert.rs:443-468 | the check succeeds exactly when the validity is two time texts and nothing else with the time between them; `InvalidCertValidity` exactly when two texts stand in front and the first is later, `CertNotValidYet` exactly for a time before both, `CertExpired` exactly for one behind both |
| CertificateMeaning.BasicConstraintsMeaning | src/verify_cert.rs:472-516 | success and the three errors, each exactly by the encodings: an optional BOOLEAN, an optional INTEGER of at most 255 and nothing else, FALSE when absent, with the path length compared to the number of sub-CAs |
| CertificateMeaning.BasicConstraintsExactly | src/verify_cert.rs:478-493 | which bytes are read as which basic constraints, both ways |
| CertificateMeaning.PurposesExactly | src/verify_cert.rs:562-584 | the purpose is found exactly when its encoding stands behind those of others, `RequiredEkuNotFound` exactly when there are purposes and nothing else and it is not among them, and else the value is malformed |
| CertificateMeaning.FailsExactly | src/verify_cert.rs:414-441 | which error a certificate gives is that of the first check it fails, for each of the seven errors that are not about malformed encodings |
| Certificates.EkuCheck | src/verify_cert.rs:562-584 | the loop over purposes is its specification, also for malformed and missing extensions |
| Certificates.EkuMeaning | src/verify_cert.rs:562-584 | the loop accepts exactly when the purpose is listed and nothing before it is malformed |
| Crl.IsCrlAuthoritative | src/verify_cert.rs:372-398 | issuer, presence of an issuing distribution point and its scope decide as specified |
| Crl.FullNameExactly | src/x509.rs:94-113 | a distribution point has full names exactly when an encoding with tag A0 stands in front of it; with A1 it has none |
| Crl.UriNameInCommon | src/crl.rs:816-839 | the two draining cursors look for the first URI of one among the names of the other, and what is left of them |
| Crl.IsAuthoritativeFor | src/crl.rs:766-814 | the exact rule: scope, and the first URI of the CRL among the names of the first distribution point, which has to be usable |
| Crl.TryPoints | src/crl.rs:788-813 | the loop over the points with one cursor for all of them: true exactly for the first URI in the first point, when that is usable |
| Crl.AuthoritySharesUri | src/crl.rs:752-814 | authority implies a shared URI and a fitting scope; the converse holds for a CRL with one URI and a certificate with one distribution point |
| Crl.AuthorityExactly | src/verify_cert.rs:358-398 | authority is the documented rule except that, with distribution points, the shared URI has to be the first one of the CRL and in the first point of the certificate |
| Crl.SharedUriIsNotEnough | src/crl.rs:752-839 | two different URIs in the CRL, the second one in the certificate: a shared URI without authority |
| Crl.FindSerial | src/crl.rs:45 | the scan for a borrowed CRL, the index for an owned one |
| RevokedCerts.FindSerialByScan | src/crl.rs:223-236 | the scan is the first entry with the serial, or the first error before it |
| RevokedCerts.ScanFindsFirst | src/crl.rs:223-236 | when all entries can be read the scan finds the first occurrence, or nothing if there is none |
| RevokedCerts.IndexHoldsLast | src/crl.rs:146-164 | the index has exactly the serials that occur, with the last entry of each |
| RevokedCerts.IndexAgreesWithScan | src/crl.rs:146-164 | whenever the index can be built, scan and index find an entry for the same serials |
| RevokedCerts.UniqueSerialSameEntry | src/crl.rs:86-94 | and the same entry when the serial occurs once |
| EntryMeaning.EntryExactly | src/crl.rs:489-560 | exactly the encodings of an entry are read as it: the contents of the INTEGER as serial, unchanged, the text of the instant, and extensions that say just this reason and this invalidity date |
| EntryMeaning.RememberedExactly | src/crl.rs:462-486 | remembering the extensions one after the other gives an entry exactly when a reason code and an invalidity date stand at most once and mean these values, no certificate issuer is named and nothing else is critical |
| EntryMeaning.ReasonExactly | src/crl.rs:606-640 | the reason codes are ENUMERATED with one octet, and which octet is which reason; 7 and those above 10 are none |
| EntryMeaning.EntriesExactly | src/crl.rs:223-236 | iterating over the entries gives just these exactly when the bytes are their encodings one behind the other |
| EntryMeaning.ScanExactly | src/crl.rs:223-236 | the scan finds something exactly when an entry with the serial stands behind others that can be read, and nothing exactly when all can be read and have other serials |
| EntryMeaning.IndexExactly | src/crl.rs:146-164 | the index can be built exactly from encodings of entries, and has exactly their serials with the last entry of each |
| NameConstraints.NameIterator.Next | src/subject_name/verify.rs:308-351 | each call yields the head of the pending names and leaves the rest; nothing comes behind an error |
| NameConstraints.ScanSubtrees | src/subject_name/verify.rs:181-262 | the loop over the bases with its two flags, for permitted and excluded subtrees |
| NameConstraints.CheckPresentedIdConforms | src/subject_name/verify.rs:153-265 | permitted subtrees first, then excluded ones, and the first error of either |
| NameConstraints.CheckSubordinates | src/subject_name/verify.rs:120-150 | the loop down the linked chain is the walk from the checked certificate to the end entity, stopping at the first error |
| NameConstraints.CheckConstraints | src/subject_name/verify.rs:99-151 | reading the two subtrees and walking down the chain gives the specified outcome and error |
| NameConstraintMeaning.NameConforms | src/subject_name/verify.rs:153-265 | a name passes exactly when the two fields encode bases, it can be compared with all of its form, it lies in a permitted one if there is one of its form, and in no excluded one, where comparing and lying in are said by form |
| NameComparison.CompareExactly | src/subject_name/verify.rs:183-222 | for every pair: bases of other forms are not compared; a DNS name matches when it, or a name its wildcard stands for, ends with the labels of the base; an address when it is in the range; a directory name never a permitted and always an excluded base; an unsupported form, and what cannot be read, is an error, and which |
| NameConstraintMeaning.ScanStops | src/subject_name/verify.rs:181-262 | the first base that cannot be read or compared, or that is excluded and holds the name, decides the error |
| NameConstraintMeaning.ViolationExactly | src/subject_name/verify.rs:246-262 | when all bases can be read and compared, the name passes or gives `NameConstraintViolation`, the latter exactly when it lies in no permitted subtree of its form or in an excluded one |
| NameConstraintMeaning.ConstraintsPassOrViolate | src/subject_name/verify.rs:99-151 | the same over a chain, for a well formed value and names that can all be compared |
| NameMeaning.GeneralNameExactly | src/subject_name/verify.rs:416-447 | which encodings, with which tags, are read as which general names |
| NameMeaning.SubtreeExactly | src/subject_name/verify.rs:163-175 | a subtree is the SEQUENCE of one base and nothing else |
| NameMeaning.BasesExactly | src/subject_name/verify.rs:176-182 | the bases of a field are those whose subtrees it encodes |
| NameMeaning.HasSubtreesExactly | src/subject_name/verify.rs:109-118 | the permitted subtrees stand under A0, then the excluded ones under A1, both optional |
| NameMeaning.CommonNameExactly | src/subject_name/verify.rs:451-477 | a common name is the UTF8String of type 2.5.4.3 at the end of the first relative name, behind attributes of other types |
| NameMeaning.NamesExactly | src/subject_name/verify.rs:285-351 | the names of a certificate are the alternative names its extension encodes, then the subject, then the common name as a DNS name where it counts |
| NameConstraintMeaning.ChainConforms | src/subject_name/verify.rs:120-150 | the walk succeeds exactly when that holds of every name of every certificate from the checked one down |
| NameConstraintMeaning.NameConstraintsMeaning | src/subject_name/verify.rs:99-151 | the extension value as a whole: well formed, nothing trailing, and the above |
| DnsNames.IsValidDnsId | src/subject_name/dns_name.rs:531-654 | the one-pass scanner accepts exactly the grammar of labels |
| DnsMatching.PresentedIdMatches | src/subject_name/dns_name.rs:369-498 | the cursors decide equality up to case and one trailing dot, or the skip over a wildcard, or the suffix rule for constraints; the only errors are the two validity checks, both closing assertions hold and no unreachable branch is met |
| DnsMatching.InvalidNames | src/subject_name/dns_name.rs:369-398 | an answer is an error exactly when one of the two names is invalid, `MalformedDnsIdentifier` or `MalformedNameConstraint` depending on which is first |
| DnsCoverage.AcceptsByLabels | src/subject_name/dns_name.rs:369-498 | for references: true exactly when all labels are equal up to case, a trailing dot of the reference dropped, or all but the first, where the wildcard stands for one label that is not empty |
| DnsCoverage.UnderIsLabelSuffix | src/subject_name/dns_name.rs:242-368 | lying under a constraint is ending with its labels, with at least one more for a leading dot |
| DnsCoverage.WildcardsAreCovered | src/subject_name/dns_name.rs:369-498 | if a name that the presented name stands for lies under a valid constraint, the matcher finds the presented name there |
| DnsCoverage.CaughtNamesAreUnderExactly | src/subject_name/dns_name.rs:369-498 | of a presented name that matches a constraint all names it stands for are under the constraint exactly when it has no wildcard or is longer than the constraint |
| DnsCoverage.CaughtExactly | src/subject_name/dns_name.rs:369-498 | matching a constraint is standing for some name under it, except for exactly the wildcards in the family with a leading dot |
| DnsCoverage.LiesInExactly | src/subject_name/dns_name.rs:369-498 | for every valid pair: a plain name matches exactly when it ends with the labels of the constraint, a wildcard exactly when it stands for such a name or is of that family and covers it |
| DnsCoverage.LeadingDotOverreach | src/subject_name/dns_name.rs:369-498 | a valid wildcard and constraint in that family: matched, with no name under it |
| DnsCoverage.NothingUnderLeadingDot | src/subject_name/dns_name.rs:369-498 | no wildcard of that family stands for a name under the constraint |
| IpConstraints.PresentedIdMatchesConstraint | src/subject_name/ip_address.rs:233-307 | the three readers and the flag give the loop over octets, and the error for each wrong length |
| IpConstraints.CidrIsIntegerArithmetic | src/subject_name/ip_address.rs:233-307 | for a mask 2^bits - 2^(bits-n) the answer is equality of name and address divided by 2^(bits-n); `Ok(true)` only for such masks |
| IpConstraints.ConstraintExactly | src/subject_name/ip_address.rs:233-307 | the answer for every pair of lengths and every mask: an error for lengths that are none, no match between families, and within one family the comparison above the longest part of the mask that is a prefix mask, a difference there giving `Ok(false)` and agreement the error unless that part is the whole mask |
| IpConstraints.PrefixMatchIsDivision | src/subject_name/ip_address.rs:264-306 | the same for addresses of any length |
| IpConstraints.MatchNeedsPrefixMask | src/subject_name/ip_address.rs:264-306 | the mask of a match is some ones followed by zeros only |
| IpConstraints.MaskIsShift | src/subject_name/ip_address.rs:298-300 | xor and mask of one octet is comparing its leading bits |
| IpText.ParseIpv4Address | src/subject_name/ip_address.rs:309-397 | the byte loop accepts exactly four decimal octets without leading zeros, and returns them; no index is out of range |
| IpText.ParseIpv6Address | src/subject_name/ip_address.rs:400-494 | the byte loop accepts exactly eight blocks of four hexadecimal digits, and returns their octets |
| IpText.Ipv6ToUncompressedString | src/subject_name/ip_address.rs:133-149 | prints two digits an octet and a colon behind every second |
| IpText.V6ParseIsPrintInverse | src/subject_name/ip_address.rs:400-494 | a text is read as octets exactly when, in lower case, it is their printed form |
| IpText.V4ParseIsPrintInverse | src/subject_name/ip_address.rs:309-397 | a text is read as octets exactly when it is their dotted form |
| SubjectNames.TryFromAscii | src/subject_name/name.rs:36-57 | each answer is that of the parser of the form, whatever the order of trials |
| SubjectNames.LanguagesAreDisjoint | src/subject_name/name.rs:36-57 | no text belongs to two of the three forms |
| Der.ReadTagAndGetValueLimited | src/der.rs:150-215 | result and position of the reader, for every input and limit |
| Der.DerEncodeLength | src/der.rs:616-634 | the loop gives the shortest big-endian length octets |
| Der.DerIterator.Next | src/der.rs:35-41 | yields the head of the items still to come and makes progress |
| Der.IterationStops | src/der.rs:35-41 | over any bytes there are at most as many items as bytes |
| DerCanonical.LengthRoundTrip | src/der.rs:616-634 | encoded lengths are read back |
| DerCanonical.LengthIsCanonical | src/der.rs:162-201 | every length that is read stands in its only encoding |
| DerCanonical.ReadEncoded | src/der.rs:150-215 | an encoding with anything behind it is read back exactly when its contents are shorter than the limit, and refused otherwise |
| DerCanonical.ReadIsCanonical | src/der.rs:150-215 | every successful read consumed exactly the encoding of what it returned |
| DerCanonical.EncodingIsUnique | src/der.rs:150-215 | no bytes begin with two different encodings |
| DerCanonical.NonnegativeIntegerExact | src/der.rs:364-391 | the accepted contents are the shortest two's complement forms of the natural numbers, without their sign octet |
| DerMeaning.BoolExactly | src/der.rs:391-414 | an optional boolean is nothing, when something else follows, or one octet of FF or 00 under tag 01 |
| DerMeaning.U8Exactly | src/der.rs:353-391 | exactly the INTEGER encodings of 0 to 255 are read as an octet |
| DerMeaning.ListExactly | src/der.rs:35-41 | iterating with a decoder that reads just the encodings of some values gives just these values exactly when the bytes are their encodings in order |
| Time.ReadTime | src/time.rs:42-104 | the digit by digit reader is its specification on the bytes |
| Calendar.ClosedFormIsSumOfYears | src/time.rs:200-205 | the closed form is the sum of the year lengths |
| Calendar.MonthTableIsSumOfMonths | src/time.rs:138-184 | the month table is the sum of the month lengths, and twelve of them are a year |
| Calendar.OrderIsChronological | src/time.rs:138-184 | seconds compare like dates, and only equal dates have equal seconds |
| Calendar.FirstAndLastSecond | src/time.rs:138-184 | dates of 1970 to 9999 are seconds 0 to 253402300799 |
| Calendar.EverySecondHasADate | src/time.rs:138-184 | and every such second is some date |
| Calendar.ReadExactlyTheTexts | src/time.rs:42-104 | a time is read exactly from the canonical encodings of its texts |
| Calendar.NotationsAgree | src/time.rs:42-104 | both notations of one instant are read as the same second |

## Left out

- Signature algorithms, algorithm identifiers and *ring*: `verify` stands for `verify_signed_data` (src/signed_data.rs).
- Parsing of whole certificates, CRLs and issuing distribution points (src/cert.rs, src/crl.rs:251-375, src/crl.rs:650-744): certificates and CRLs come parsed, with a parse failure as one outcome of a pool entry, of a distribution point and of an issuing distribution point, and the reasons of a distribution point as bytes; the extension values the checks read themselves stay bytes.
- Trust anchor extraction, the public wrappers and builders, conversions, formatting and feature gates.
- `verify_cert_dns_name`, `verify_cert_subject_name` and `list_cert_dns_names` (src/subject_name/verify.rs:27-97, 354-402): one pass over names that are modelled; the comparison of IP addresses for equality is not.
- BuildChain: its contract does not cover runs on which the code aborts at src/der.rs:343; it requires exactly that the run does not come to flags without an octet. The functions of the model have a value there, as if a key usage were malformed and a distribution point unusable.
- BuildChainInner: requires the same of its own run.
- TryTrustAnchors: requires the same of the loop.
- TryAnchor: requires the same of the anchor.
- CheckSignaturesDown: requires the same of the walk.
- CheckRevocation: requires the same of the search for a CRL and of the key usage where that is read, and the issuer equality that the code asserts.
- IsCrlAuthoritative: requires the same of the points that are parsed.
- TryPoints: requires the same of the points that it comes to.
- ReadBitStringFlags: a third call, for the reasons of an issuing distribution point (src/crl.rs:703), aborts on the same contents when the CRL is loaded, before any run.
- FailsExactly: for bytes that cannot be read it says that the error is one of `BadDer`, `BadDerTime` and `TrailingData`, and leaves to the readers which.
- StatusErrors: for an entry that cannot be read it says that the error is one of reading, and leaves to the readers which.
- AnchorComplainsExactly: for name constraints that do not hold the error is that of the walk over the names; `NameConstraintMeaning.ScanStops` and `NameConstraintMeaning.ConstraintsPassOrViolate` say more about it.
- EntryComplainsExactly: leaves the error of name constraints to the same two.
- SearchSpends: does not say which error a spent budget yields; `PathSpent.ReportedExactly` and `PathSpent.SpentSearch` do.
- IsAuthoritativeFor: requires the same of the points that are parsed; the assertion that the CRL is not for attribute certificates (src/crl.rs:767) is not part of the model, because such CRLs are refused when they are parsed.
- UniqueSerialSameEntry: for a serial that occurs more than once the two differ (first and last occurrence), which `RevokedCerts.IndexAgreesWithScan` states.
- CutRepeats: states a sufficient condition; repetitions of the end entity itself, and of the first intermediate under server authentication, are excluded because constraints then see other names.
- Machine widths of lengths, counters and seconds: numbers are unbounded. The values that occur stay below their limits (lengths below 2^32, seconds below 253402300800); the counter and the depth are bounded by the theorems.
- The numbers of verifications and calls in `Tally` are not in the code; only the counter is.
- The ordered map behind the CRL index is a mathematical map with the last insertion winning.
