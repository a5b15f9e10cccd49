# Hybrid X.509 evidence: a verified model

This project models the decision logic of a verifier for hybrid (classical plus post-quantum) X.509
authentication, and proves what its answers mean. The parts are:

- **The evidence oracle** (`src/oracle.rs`, `src/model.rs`). A request carries a certificate path, evidence items
  with eight checks each, paired authentications and one validation stack's observation. `RequestValidation` is the
  validator with its hash sets, maps and counter; `WellFormedness` says what it accepts without any order of checks,
  `ValidationErrors` what each of its errors says about the request. `Aggregation` holds the three-valued folds with
  their early returns, `Oracle` the verdict of each policy and the list of failed checks. `Terms` holds the words
  the theorems use, spelled out in the fields of the request and apart from the operations. The theorems are in
  `HybridAcceptance` and `Rejection` (exactly which requests get which verdict), `PolicyAgreement`, `ScopeWidening`,
  `Reordering`, `MoreKnowledge`, `FailureAccounting` and `EmptyListVerdicts`; requests that show where a stronger
  claim fails are in `Counterexamples`, `FlawlessExample` and `WideningExample`.
- **Revocation** (`src/ocsp.rs`, `src/pem.rs`). `OcspStatus` is the decision procedure for OCSP responses (RFC 6960
  sections 3.2, 4.2.2.1 and 4.2.2.2), `OcspAnswers` what each field of its answer and each of its errors means,
  `OcspTimes` what it answers as the time or the policy varies, `CrlStatus` the same for revocation lists (RFC 5280
  sections 5.1 and 5.3.1), `Serial` the matching of serial numbers. `RevocationModes` feeds OCSP answers into the
  oracle and compares soft-fail with hard-fail end to end.
- **Text and state**. `Base64` (RFC 4648 section 4) and `PemBundle` (RFC 7468 sections 2, 3 and 5) hold the bundle
  printers and the parser with its cursor loop, `BundleGrammar` which texts that parser accepts and why it refuses
  the others; `ProcessCapture` the bounded reader; `VersionCache` the cache of version outputs and its sequential
  calls, `VersionRaces` what racing callers get from it; `AlteredStream` the stream that flips one transcript bit.

`Sequences` and `Wrappers` are helpers. `dafny verify dfyconfig.toml` checks everything.

## How the model is built

- Code that loops over mutable state is a method or a class, proved equal to a specification function
  (`ValidateRequest` to `Validation`, `Evaluate` to `Evaluation`, and so on); the theorems are about those
  functions, so they hold of the methods.
- What a theorem is about is stated in the fields of the source's records, not through the predicates the operations
  branch on: a certificate needs evidence, a check is established, a name or a key responds, an output is clean.
  That the operations decide the same is proved.
- The specification of a fold is a statement about membership ("some required certificate shows a failure"), not
  another fold. That the early returns and the `indeterminate` flag compute it is what the method proves.
- The RFC 3339 parser is a parameter `isRfc3339` of the validator. Reason texts, check names and hash field names
  are constructors, one for each distinct text. Other strings are compared as the source compares them.
- OCSP and CRL inputs are parsed records. A signature check is its outcome: valid, invalid, or not possible. Message
  digests and the span of times an ASN.1 time can hold are the `Library` parameter. Times are 64-bit, with
  saturation written out. A certificate's validity is a closed interval.
- The certificate factory is a predicate `isCertificate` on DER bytes. The PEM reader between two markers is base64
  decoding of the text without whitespace.
- A cached call is modelled with what running the command at that moment gives. A reader is modelled by the chunks
  and errors that arrive; one read returns at most one buffer full of one chunk.

## What the proofs found

- Under the required-hybrid policy, widening the scope from the end entity to the path never gives a better verdict.
  Under the classical and optional policies it does exactly when the end entity needs no classical evidence and the
  path, which is supported, shows no ground for rejection (`WideningMayRaiseClassical`); `WideningRaisesClassical`
  is a request for which it happens.
- An empty list of failed checks does not imply success. With nothing listed, the required-hybrid policy still
  rejects a supported request exactly if the stack is refuted, a certificate in scope is neither hybrid by design
  nor related, or required evidence calls a check inapplicable, with direct confidence, where it may not be. The
  classical and optional policies reject it exactly if nothing needs classical evidence, the stack is refuted, or
  required classical evidence has such a check. Policy P3 never rejects. `EmptyListVerdictExact` states this and the
  two successes; for two different causes there is a request (`EmptyListMayBeRejected`,
  `FlawlessEvidenceMayBeRejected`).
- When revocation is not required, an unsuccessful OCSP response is still reported as indeterminate, and the
  validator then refuses any request built from it (`NotRequiredRefusesUnavailable`). `NotRequiredAcceptsExact` says
  which requests it accepts.
- Answers of the version cache need not agree when callers race, not even the answers of two callers that only hit
  (`HitsMayDisagree`). In every interleaving they agree exactly if the finished runs for the key do
  (`AnswersFollowRuns`). They agree whatever the runs return exactly if no two calls for the key overlap that get to
  check, run and insert (`AgreementExact`). In a given interleaving it suffices that calls for the key do not
  overlap (`ApartCallsAgree`), or that at most one check precedes the first insertion (`OneMissAgrees`); a retry
  after a failed run shows that the latter is not necessary (`RetryIsNoRace`).
- The first slice written to the altering stream may run past its array, and is then padded with zeros where any
  later write would be refused (`FirstWriteMayRunPast`). Over any sequence of writes the delegate receives exactly
  the bytes named, with one bit flipped, if and only if the first write that offers bytes lies within its array
  (`TranscriptExact`).
- The bundle parser's size limit of 16 MiB applies to the printed text. `RoundTrip` states it through the sizes of
  the certificates; a single certificate of 12 MiB is over it (`OneCertificateMayBeTooLarge`).
- Arms that look reachable but are not: the trust-anchor arms and both `unreachable!` calls of the oracle
  (`PathShape`, and the dead branch of `Oracle.Decide`), and an unavailable status passing
  (`UnavailableOnlyWithoutResponse`).

## Model

| member | source | states |
|---|---|---|
| RequestValidation.ValidateEvidenceIds | src/oracle.rs:348-361 | the loop over two hash sets reports the first item that repeats an earlier id or an earlier certificate and kind |
| RequestValidation.ValidateCertificate | src/oracle.rs:365-386 | one turn of the certificate loop reports exactly this node's first error and extends the index and the count |
| RequestValidation.ValidateCertificates | src/oracle.rs:363-387 | the loop reports the first node breaking a rule, in the order of the rules, and otherwise leaves an exact index of the path and the number of end entities |
| RequestValidation.ValidateStackSelectedPath | src/oracle.rs:572-597 | the first error among malformed stack hashes, a path that is not the selected one, a bad anchor, or differing anchors |
| RequestValidation.ValidatePair | src/oracle.rs:393-415 | one turn of the pair loop reports exactly this pair's first error and extends the index of operations |
| RequestValidation.ValidatePairs | src/oracle.rs:391-416 | the loop reports the first bad pair, or leaves an exact index of all pairs |
| RequestValidation.RecordOperation | src/oracle.rs:474-481 | the map insertion detects exactly the items whose certificate named another operation before |
| RequestValidation.ValidateEvidenceItem | src/oracle.rs:418-517 | one turn of the evidence loop reports exactly this item's first error, with every lookup through the maps agreeing with the lists |
| RequestValidation.ValidateEvidence | src/oracle.rs:418-518 | the loop reports the first bad item |
| RequestValidation.ValidateRequest | src/oracle.rs:336-528 | the whole validator returns the first error in the order of its phases, or none |
| RequestValidation.PathHashes | src/oracle.rs:579-584 | all node hashes in path order exist exactly when every node has one |
| WellFormedness.EvidenceIdsExact | src/oracle.rs:348-361 | no id error exactly when ids, and certificate and kind together, are pairwise distinct |
| WellFormedness.PathExact | src/oracle.rs:363-389 | the certificate and selected-path phases pass exactly when one end entity is followed by intermediates, ids are distinct, hashes are the stack's, and both anchors are the same good one |
| WellFormedness.PairsExact | src/oracle.rs:391-416 | the pair phase passes exactly when operations are distinct and non-empty and each names a related certificate of the path |
| WellFormedness.AcceptedEvidenceIsWellFormed | src/oracle.rs:418-518 | if the evidence phase passes, every item is bound to its node and pair, and items of one certificate name one operation |
| WellFormedness.WellFormedEvidenceIsAccepted | src/oracle.rs:418-518 | and conversely |
| WellFormedness.ValidationExact | src/oracle.rs:336-528 | the ordered validator accepts exactly the requests meeting the declarative predicate |
| WellFormedness.PathShape | src/oracle.rs:733-799 | in accepted requests only the first node is an end entity, none is an anchor and the node hashes are the stack's, so the anchor arms are dead |
| WellFormedness.NodeIsBound | src/oracle.rs:427-491 | in accepted requests, an item naming a node's id is bound to that very node |
| WellFormedness.PermutedStaysWellFormed | src/oracle.rs:336-528 | acceptance survives any reordering of evidence and pairs |
| ValidationErrors.ErrorsAreTrue | src/oracle.rs:336-528 | whatever error the validator reports is true of the request, in its fields: which id repeats, which hash is malformed or differs, which operation, position or policy does not fit |
| ValidationErrors.HashesExact | src/oracle.rs:621-634 | an accepted request carries only hashes of 64 characters out of 0123456789abcdef, and a request that carries only such hashes is never refused for one |
| Aggregation.ChecksState | src/oracle.rs:712-719 | the inner loop gives failure if any check fails, else indeterminate if any check is, else pass |
| Aggregation.ItemsState | src/oracle.rs:706-720 | the same over the checks and bindings of all items of a certificate |
| Aggregation.CertificateState | src/oracle.rs:697-720 | the same for one required certificate, where having no item is a failure |
| Aggregation.EvidenceState | src/oracle.rs:686-727 | the fold with early returns is the worst state shown for any required certificate, in any order |
| Aggregation.DesignStateOf | src/oracle.rs:653-677 | the design state of one certificate, with the two first-match searches |
| Aggregation.HybridAuthenticationDesignState | src/oracle.rs:647-684 | the fold with early returns is the worst design state of any certificate |
| Aggregation.ValidatedPathState | src/oracle.rs:780-806 | pass exactly when the adapter selected the path and it has an end entity, no anchor, and every hash and issuer edge; otherwise indeterminate |
| Oracle.AddMissingEvidenceChecks | src/oracle.rs:808-827 | appends one entry per required certificate without evidence, in order, and changes nothing before |
| Oracle.AddPairFailures | src/oracle.rs:309-324 | appends one entry per pair of an in-scope certificate whose same-operation check did not pass |
| Oracle.ComputeAggregates | src/oracle.rs:103-151 | the aggregate states are the worst states of the specification |
| Oracle.CollectFailedChecks | src/oracle.rs:276-324 | the growing vector is the concatenation of listed, missing and pair entries |
| Oracle.Evaluate | src/oracle.rs:81-334 | the evaluation returns the validator's error, or the assessment built from the aggregate states |
| HybridAcceptance.RequiredHybridIsMinimum | src/oracle.rs:214-254 | the required-hybrid cascade is the minimum, in the order reject, indeterminate, hybrid, over every single observation |
| HybridAcceptance.CompleteExact | src/oracle.rs:706-764 | an item shows nothing but passes exactly when all checks are established and its three hashes are present and the ones the path or pair names |
| HybridAcceptance.NodeEvidenceExact | src/oracle.rs:686-727 | a node's evidence of a kind passes exactly when there is one item of the kind and it is complete |
| HybridAcceptance.NamedPairOfNode | src/oracle.rs:647-684 | all items of a related certificate name one declared pair, so finding the first of them loses nothing |
| HybridAcceptance.DesignExact | src/oracle.rs:647-684 | a node's design passes exactly when it is hybrid by design, or related with one established operation named by all its evidence |
| HybridAcceptance.HybridVerdictExact | src/oracle.rs:81-334 | the evaluation answers hybrid exactly for well-formed requests with an accepting stack at the request's time and every in-scope node accepted, under the required policy or, given a classical requirement, the optional one |
| HybridAcceptance.EvidenceOfAcceptedNodes | src/model.rs:106-128 | then every in-scope node has one complete post-quantum item, and one complete classical item unless it is related with a post-quantum signature |
| HybridAcceptance.ClassicalVerdictExact | src/oracle.rs:160-213 | the evaluation answers classical exactly for these well-formed requests and policies |
| HybridAcceptance.ClassicalRejectionExact | src/oracle.rs:160-213 | the classical and optional policies reject exactly without a classical requirement, with a failed stack, or with a node whose classical evidence fails |
| Rejection.EvidenceFailsExact | src/oracle.rs:686-764 | a node's evidence of a kind fails exactly when it is missing or some check of it is refuted with direct confidence |
| Rejection.DesignFailsExact | src/oracle.rs:647-684 | a node's design fails exactly when it is neither hybrid nor related, or related without evidence, or its operation is refuted |
| Rejection.RejectVerdictExact | src/oracle.rs:81-259 | the evaluation rejects exactly the well-formed, supported requests with a ground for rejection under their policy, each ground a single observation |
| Rejection.UnsupportedVerdictExact | src/oracle.rs:84-101 | it answers unsupported exactly for well-formed requests with an unsupported stack, or with a certificate in scope whose key scheme, signature scheme or binding design is unknown |
| PolicyAgreement.PoliciesAgree | src/oracle.rs:152-274 | on one request: optional rejects or is indeterminate iff classical is; optional is hybrid iff required is and something needs classical evidence; when each reports fallback; the failed checks are the same |
| PolicyAgreement.FallbackExcludesHybrid | src/oracle.rs:261-275 | fallback never stands beside a hybrid verdict |
| PolicyAgreement.LifecycleExact | src/oracle.rs:271-275 | desynchronization is fallback beside an in-scope post-quantum item that is out of date or revoked |
| PolicyAgreement.ReasonExact | src/oracle.rs:225-229 | required hybrid gives the accepted-without-post-quantum reason exactly when classical alone succeeds and post-quantum evidence fails, and then it rejects with fallback |
| PolicyAgreement.EveryVerdictIsExplained | src/oracle.rs:160-259 | the reason always is one belonging to the policy and the verdict |
| ScopeWidening.WideningNeverStrengthens | src/model.rs:36-43 | under required hybrid the verdict for the path is unsupported or at most the one for the end entity |
| ScopeWidening.WideningMayRaiseClassical | src/oracle.rs:161-213 | under the other two policies it rises exactly when the end entity needs no classical evidence and the path is supported with no ground for rejection |
| WideningExample.WideningRaisesClassical | src/oracle.rs:161-181 | an accepted request evaluated to reject for its end entity and to satisfied for its path |
| Reordering.ValidityIgnoresOrder | src/oracle.rs:348-518 | reordering evidence and pairs never changes whether a request is accepted |
| Reordering.FirstNamedPairIgnoresOrder | src/oracle.rs:656-668 | the two first-match searches find the same pair in any order |
| Reordering.AssessmentIgnoresOrder | src/oracle.rs:81-334 | nor verdict, fallback, lifecycle flag or reason, and the failed checks are the same multiset |
| MoreKnowledge.KindRefines | src/oracle.rs:686-727 | an evidence state that was pass or fail survives any resolution of undetermined observations |
| MoreKnowledge.DefiniteVerdictsStay | src/oracle.rs:136-259 | resolving undetermined observations keeps every definite verdict, except that optional hybrid may rise from classical to hybrid |
| FailureAccounting.MissingEntriesAreCounted | src/oracle.rs:808-827 | the missing entries name exactly the required certificates without an item and the kind, once each and in path order |
| FailureAccounting.ItemFailuresExact | src/oracle.rs:276-296 | an item contributes one entry for each check that applies and is not a direct pass, in the order of its eight checks |
| FailureAccounting.EmptyListExact | src/oracle.rs:276-324 | the list is empty exactly when every check in scope that applies is a direct pass, all needed evidence is there and every pair of a certificate in scope is established |
| FailureAccounting.EntriesExact | src/oracle.rs:276-324 | the list holds exactly the checks in scope that apply and are not a direct pass, the missing kinds of evidence by certificate and kind, and the pairs that are not established |
| FailureAccounting.EmptyListAndEvidence | src/oracle.rs:281-289 | with an empty list, the evidence of a kind passed exactly when its items carry their hashes and their inapplicable checks are allowed and direct |
| EmptyListVerdicts.EmptyListVerdictExact | src/oracle.rs:160-324 | with an empty list, a supported request is rejected, hybrid or classical exactly for the stated reasons in its stack, its certificates' designs, its hashes and its inapplicable checks |
| EmptyListVerdicts.ResultExact | src/oracle.rs:829-857 | a result repeats the request and the observation, and lists exactly what is reported of a supported request |
| Counterexamples.EmptyListMayBeRejected | src/oracle.rs:281-289 | a request that is rejected with an empty list |
| FlawlessExample.FlawlessEvidenceMayBeRejected | src/oracle.rs:652-655 | a request whose evidence is accountable throughout, rejected with an empty list for its design |
| Serial.FirstNonzero | src/ocsp.rs:550-556 | the place found is the first byte that is not zero |
| Serial.SerialsMatchNumerically | src/ocsp.rs:550-556 | two serials normalize alike exactly when they are the same unsigned number |
| Serial.PaddingIsIgnored | src/pem.rs:659-665 | any number of zero bytes in front changes no match |
| OcspStatus.ResponderAndSignatureStates | src/ocsp.rs:397-431 | the loop over embedded certificates: the issuer answers itself, otherwise exactly one candidate must match |
| OcspStatus.HasRepeatedOrCritical | src/ocsp.rs:356-379 | the scan with a hash set finds exactly a repeated or a critical extension |
| OcspStatus.OcspExtensionsValid | src/ocsp.rs:356-379 | all lists are acceptable, the response's and each single response's |
| OcspStatus.CheckOcspStatus | src/ocsp.rs:89-217 | the whole decision equals the specification that the theorems are about |
| OcspAnswers.ErrorsExact | src/ocsp.rs:132-168 | a call fails exactly for a nonce not of 1 to 32 bytes, an unreadable signature that some key would have to verify, the first unsupported digest, or two responses naming the certificate, in this order |
| OcspAnswers.SignatureExact | src/ocsp.rs:397-431 | the signature field is the outcome under the key of the issuer, if it responds, or of the only embedded certificate that does; otherwise it is open |
| OcspAnswers.ResponderExact | src/ocsp.rs:381-475 | the responder field passes exactly if the issuer responds, by subject or SHA-1 key hash, or the only embedded responder is delegated and within its validity; it is open exactly if that delegation is |
| OcspAnswers.IssuerExact | src/ocsp.rs:145-151 | the issuer field is pass, fail or indeterminate exactly by the certificate's issuer name, its two algorithm fields and the outcome of its signature |
| OcspAnswers.SingleExact | src/ocsp.rs:152-185 | identifier, freshness and both status fields are exactly those of the one response that names the certificate |
| OcspAnswers.ExtensionsExact | src/ocsp.rs:356-379 | the extensions field passes exactly if no list repeats an object identifier or has a critical extension |
| OcspAnswers.NonceFieldExact | src/ocsp.rs:337-354 | the nonce field is open without an expected nonce, and passes exactly if the only nonce is the expected one |
| OcspAnswers.RevocationExact | src/ocsp.rs:186-197 | each revocation state, exactly, from the other fields and the mode |
| OcspAnswers.EnvelopeExact | src/ocsp.rs:199-216 | every answer records the applied policy and is observed; without a response all fields but the first are indeterminate or unavailable |
| OcspAnswers.PassNeedsEverything | src/ocsp.rs:89-217 | revocation passes only under an unbroken link to the issuer, a valid response signature, and a fresh response that names the certificate and is good at that time |
| OcspTimes.FreshnessIsExact | src/ocsp.rs:558-590 | saturating 64-bit freshness is the exact integer predicate for all inputs |
| OcspTimes.FreshnessGrows | src/ocsp.rs:558-590 | a larger age limit or skew never makes a fresh response stale |
| OcspTimes.DelegationExact | src/ocsp.rs:433-475 | a delegated responder passes exactly when its credentials stand and the time lies in its validity |
| OcspTimes.DelegationOpenExact | src/ocsp.rs:433-475 | it is indeterminate exactly when its signature could not be checked or only its own revocation is unknown |
| OcspTimes.ResponderRangeExact | src/ocsp.rs:397-475 | responder and signature both pass exactly in one closed range of times |
| OcspTimes.PassTimesAreOneRange | src/ocsp.rs:89-217 | with all else fixed, a response passes exactly within one closed range of times |
| OcspTimes.PassTimesHaveNoGap | src/ocsp.rs:89-217 | between two passing times every time passes |
| OcspTimes.SoftFailTimesAreOneRange | src/ocsp.rs:279-299 | under soft-fail, a response fails exactly within one closed range, where it is usable and the revocation has begun |
| OcspTimes.NonceExact | src/ocsp.rs:337-354 | an expected nonce passes exactly when one extension is a nonce and carries it |
| OcspTimes.ErrorsAreTimeless | src/ocsp.rs:89-217 | whether and how a call fails does not depend on the time |
| OcspTimes.RevokedStaysRevoked | src/ocsp.rs:253-277 | an effective revocation holds at every later time, and never passes |
| OcspTimes.UnavailableOnlyWithoutResponse | src/ocsp.rs:315-335 | unavailable is reported only without a successful response and never passes; passing implies good |
| OcspTimes.ModesCompared | src/ocsp.rs:279-299 | for one response, soft-fail and hard-fail pass together, hard-fail fails wherever soft-fail does not pass, and an unavailable one is indeterminate in every mode |
| OcspTimes.CertIdIgnoresPadding | src/ocsp.rs:524-538 | zero bytes in front of a CertID serial change no match |
| OcspTimes.CertIdMatchesNumerically | src/ocsp.rs:524-538 | a CertID matches exactly when both issuer hashes agree and the serials are equal as numbers |
| OcspTimes.MatchingExact | src/ocsp.rs:152-165 | matching fails exactly on an unsupported digest anywhere, keeps exactly the naming responses, and keeps several exactly when two places name the certificate |
| CrlStatus.FirstRevocation | src/pem.rs:546-552 | the earliest date of an entry listing the certificate |
| CrlStatus.FieldsExact | src/pem.rs:530-582 | each field of the answer, exactly, in the fields of the certificate, the issuer and the list |
| CrlStatus.PassTimesAreOneSpan | src/pem.rs:530-582 | a list passes exactly from its issue until its next update or the first revocation, and fails from there to the next update |
| CrlStatus.RevocationNeverReverts | src/pem.rs:546-552 | a certificate revoked at one time is revoked at every later time |
| CrlStatus.ListsNumerically | src/pem.rs:546-552 | an entry lists a certificate by number, however padded |
| RevocationModes.ItemsHarden | src/ocsp.rs:279-335 | an item filled in under hard-fail differs from soft-fail only by indeterminate turned into fail, and in the recorded policy |
| RevocationModes.ValidityIgnoresMode | src/oracle.rs:499-517 | the two requests are accepted or refused together |
| RevocationModes.HardFailOnlyRejectsMore | src/oracle.rs:160-275 | on the same responses, hard-fail changes a verdict only from indeterminate to reject, and never the fallback |
| RevocationModes.NotRequiredRefusesUnavailable | src/oracle.rs:511-517 | when revocation is not required, an item meets the rule exactly if its response was successful, and otherwise the request is refused |
| RevocationModes.NotRequiredAcceptsExact | src/oracle.rs:494-517 | when revocation is not required, a request is accepted exactly if it is under soft-fail, every response was successful, and every other item calls revocation not applicable |
| Base64.DecodeEncode | tools/corpus-generator/src/main/java/gen/CertLib.java:159 | decoding undoes encoding for every byte string |
| Base64.DecodesExact | tools/corpus-generator/src/main/java/gen/CertLib.java:159 | exactly the texts of whole groups from the alphabet, padded only at the end, are decoded |
| Base64.LetterExact | tools/corpus-generator/src/main/java/gen/CertLib.java:159 | the alphabet is A to Z, a to z, 0 to 9, plus and slash, in this order |
| Base64.GroupIsNumber | tools/corpus-generator/src/main/java/gen/CertLib.java:159 | three bytes and the four letters printed for them are digits of one 24-bit number |
| PemBundle.Wrap | tools/corpus-generator/src/main/java/gen/CertLib.java:168-172 | the loop breaks the text into lines of 64 |
| PemBundle.LinesAreFull | tools/corpus-generator/src/main/java/gen/CertLib.java:168-172 | in wrapped text a newline follows every 64 characters and ends the text, and stands nowhere else |
| PemBundle.FormatExact | tools/corpus-generator/src/main/java/gen/CertLib.java:157-161 | a printed certificate is its wrapped base64 between the two marker lines |
| PemBundle.WriteCertificateBundle | tools/corpus-generator/src/main/java/gen/CertLib.java:154-162 | the loop prints the entries in order |
| PemBundle.EncodeCertificatePem | src/mutation.rs:44-53 | the Rust printer gives the text of a bundle of one |
| PemBundle.PrintedLengthExact | tools/corpus-generator/src/main/java/gen/CertLib.java:154-172 | the size of printed text follows from the sizes of the certificates by a closed formula for each |
| PemBundle.IndexOfIsFirst | tools/bc-x509-adapter/src/main/java/dev/hybridx509/BcX509Adapter.java:215-225 | a search finds the first occurrence, and finds none only if there is none |
| PemBundle.BlankExact | tools/bc-x509-adapter/src/main/java/dev/hybridx509/BcX509Adapter.java:217-224 | text is blank exactly if it has only the 25 code points of a list |
| PemBundle.TurnAt | tools/bc-x509-adapter/src/main/java/dev/hybridx509/BcX509Adapter.java:214-240 | a turn that finds a certificate moves the cursor forward within the text |
| PemBundle.ReadCertificates | tools/bc-x509-adapter/src/main/java/dev/hybridx509/BcX509Adapter.java:213-241 | the cursor loop terminates and returns the certificates found in order, or the first refusal |
| PemBundle.LoadAll | tools/bc-x509-adapter/src/main/java/dev/hybridx509/BcX509Adapter.java:204-247 | the parser with its size limit and its refusal of empty bundles |
| PemBundle.RoundTrip | tools/bc-x509-adapter/src/main/java/dev/hybridx509/BcX509Adapter.java:204-247 | a printed list is refused when its printed size exceeds the limit, when it is empty and beyond 64, and otherwise read back exactly |
| PemBundle.AcceptedIsCanonical | tools/bc-x509-adapter/src/main/java/dev/hybridx509/BcX509Adapter.java:204-247 | any accepted text gives 1 to 64 certificates, and printing them gives a text read as the same list |
| BundleGrammar.AcceptedExact | tools/bc-x509-adapter/src/main/java/dev/hybridx509/BcX509Adapter.java:204-247 | a list is accepted exactly from texts that are its 1 to 64 items between markers, with only white space before, between and after them |
| BundleGrammar.ItemExact | tools/bc-x509-adapter/src/main/java/dev/hybridx509/BcX509Adapter.java:226-236 | an item gives a certificate exactly if it is base64, apart from white space, of bytes the factory takes, and which refusal it gets otherwise |
| BundleGrammar.TailExact | tools/bc-x509-adapter/src/main/java/dev/hybridx509/BcX509Adapter.java:215-221 | after good items, a tail without a begin marker is trailing data exactly if it is not blank |
| BundleGrammar.GapIsRefused | tools/bc-x509-adapter/src/main/java/dev/hybridx509/BcX509Adapter.java:222-224 | after good items, text in front of a begin marker is refused as non-PEM data |
| BundleGrammar.OpenItemIsRefused | tools/bc-x509-adapter/src/main/java/dev/hybridx509/BcX509Adapter.java:225-226 | after good items, a begin marker without an end marker is refused as incomplete |
| BundleGrammar.BadItemIsRefused | tools/bc-x509-adapter/src/main/java/dev/hybridx509/BcX509Adapter.java:227-240 | after good items, each kind of bad item, and the 65th, gets its own refusal |
| BundleGrammar.PrintedThenTail | tools/bc-x509-adapter/src/main/java/dev/hybridx509/BcX509Adapter.java:215-221 | a printed list followed by text without a begin marker is read as the list exactly if that text is blank |
| PemBundle.OneCertificateMayBeTooLarge | tools/bc-x509-adapter/src/main/java/dev/hybridx509/BcX509Adapter.java:206-208 | a single certificate of 12 MiB is refused in its printed form |
| ProcessCapture.ReadBounded | src/process.rs:138-152 | the loop returns the first limit bytes, truncated exactly if there were more, or the reader's error |
| ProcessCapture.ChunkingIsIrrelevant | src/process.rs:138-152 | the capture depends only on the bytes, not on how they are split |
| VersionCache.VersionCacheKey | src/adapters/mod.rs:144-151 | the loop joins the components with NUL |
| VersionCache.KeyIsInjective | src/adapters/mod.rs:144-151 | commands whose components have no NUL share a key only if they are the same |
| VersionCache.Cache.CachedVersionOutput | src/adapters/mod.rs:114-142 | a call answers with the first earlier success for its key, otherwise runs; the cache holds exactly the first success of each key |
| VersionCache.RunsUpToFirstSuccess | src/adapters/mod.rs:114-142 | the command runs at each call up to and including the first success, whose output every later call returns |
| VersionCache.RunsExact | src/adapters/mod.rs:114-142 | a call runs exactly if no earlier call for its key came back with status 0, in time, and neither output truncated; otherwise it answers with such an output |
| VersionCache.StoredAreClean | src/adapters/mod.rs:131-139 | after any calls every stored output is one of these, from a call for its key |
| VersionCache.OneRunPerFailureAndOneSuccess | src/adapters/mod.rs:114-142 | in any prefix of a history the runs number the failures before the first success, plus one for it |
| VersionCache.EveryRunIsSound | src/adapters/mod.rs:114-142 | in every interleaving, what is stored is a clean output of a run for its own key, answers come from runs for their key, and no caller runs twice |
| VersionCache.StoredAreProduced | src/adapters/mod.rs:131-139 | in every interleaving every stored output has status 0, is in time and whole, and a run for its key gave it |
| VersionCache.StoredKeysStay | src/adapters/mod.rs:117-127 | a caller that starts once its key is stored never runs |
| VersionCache.KeysNeverDisappear | src/adapters/mod.rs:114-142 | keys never leave the cache |
| VersionCache.RacingCallersMayDisagree | src/adapters/mod.rs:119-141 | in one schedule two callers that both miss answer differently, and the later output stays stored |
| VersionRaces.StoredByInsert | src/adapters/mod.rs:134-139 | in every interleaving a key is stored exactly if some caller for it has inserted |
| VersionRaces.FinishedRanExact | src/adapters/mod.rs:119-128 | in every interleaving a finished caller ran the command exactly if its key was absent when it checked |
| VersionRaces.AnswersFollowRuns | src/adapters/mod.rs:114-142 | in every interleaving the clean answers for a key, hits included, agree exactly if the finished runs for it do |
| VersionRaces.OneMissAgrees | src/adapters/mod.rs:114-142 | they agree when at most one check for the key precedes its first insertion |
| VersionRaces.AgreementExact | src/adapters/mod.rs:114-142 | for a schedule of turns, they agree whatever the runs return exactly if no two full calls for the key overlap |
| VersionRaces.PlayIsInterleaving | src/adapters/mod.rs:114-142 | every schedule with every choice of outcomes is an interleaving of the actions of its turns, without those of finished callers, whose runs give those outcomes |
| VersionRaces.InterleavingIsPlayed | src/adapters/mod.rs:114-142 | and every interleaving is the schedule of its callers with the outcomes of its runs |
| VersionRaces.ApartCallsAgree | src/adapters/mod.rs:114-142 | in an interleaving where no two full calls for a key overlap, the clean answers for it agree |
| VersionRaces.HitsMayDisagree | src/adapters/mod.rs:119-127 | in one schedule two callers that never run answer differently |
| VersionRaces.RetryIsNoRace | src/adapters/mod.rs:128-133 | two calls one after another never overlap, even when the first fails and both run |
| AlteredStream.AlteringStream.constructor | tools/bc-x509-adapter/src/main/java/dev/hybridx509/TlsTranscriptProbe.java:252-253 | a new stream has altered nothing |
| AlteredStream.AlteringStream.WriteInt | tools/bc-x509-adapter/src/main/java/dev/hybridx509/TlsTranscriptProbe.java:254-257 | after any sequence of writes the delegate holds all bytes they offered with bit 0 of the first flipped, and the flag says whether there were any |
| AlteredStream.AlteringStream.WriteSlice | tools/bc-x509-adapter/src/main/java/dev/hybridx509/TlsTranscriptProbe.java:259-269 | the same for slices, which may be refused |
| AlteredStream.FlipIsItsOwnInverse | tools/bc-x509-adapter/src/main/java/dev/hybridx509/TlsTranscriptProbe.java:271-277 | the alteration changes every non-empty input and undoes itself |
| AlteredStream.LowByteExact | tools/bc-x509-adapter/src/main/java/dev/hybridx509/TlsTranscriptProbe.java:254-257 | a single write offers the value modulo 256 |
| AlteredStream.CopyIsPadded | tools/bc-x509-adapter/src/main/java/dev/hybridx509/TlsTranscriptProbe.java:262 | a copied range that runs past its array goes on with zeros |
| AlteredStream.SliceInRange | tools/bc-x509-adapter/src/main/java/dev/hybridx509/TlsTranscriptProbe.java:261-268 | a slice within the array is offered as itself on the first and on every later write |
| AlteredStream.FirstWriteMayRunPast | tools/bc-x509-adapter/src/main/java/dev/hybridx509/TlsTranscriptProbe.java:261-263 | the first write differs from a later one exactly for slices that start within the array and run past it |
| AlteredStream.TranscriptExact | tools/bc-x509-adapter/src/main/java/dev/hybridx509/TlsTranscriptProbe.java:252-278 | over any sequence of writes the delegate gets the named bytes with one bit flipped exactly if the first write that offers bytes lies within its array |

## Left out

- Files, containers, command lines, JSON and schemas, temporary files, and the adapters' own `verify` functions.
- Cryptography, DER, X.509 and OCSP decoding, SHA digests and RFC 3339 parsing: their results are inputs.
- The reading, decoding and parsing errors of the OCSP and CRL checks, which come before the decision modelled here.
- The screening of critical and malformed CRL extensions: it only refuses a list before the decision.
- Policy P3 beyond its constant verdict.
- Free-text fields of evidence and observations that no decision reads, and the exact wording of reasons.
- PEM headers, and the line rules of the PEM reader, between two markers.
- Threads, timeouts and process groups of `run_program`; the limits passed with a cached call, which are not part of the key; a poisoned cache lock.
- Paths and arguments that are not valid UTF-8, whose lossy text is the cache key.
- The TLS handshake, the signer around the altering stream, and exceptions thrown by the stream underneath other than for a bad slice.
- The expectation matrix, the analyzers and the classification of adapter verdicts: finite tables.
- The mutation of a certificate's outer signature, and the corpus generator beyond its bundle printer.
