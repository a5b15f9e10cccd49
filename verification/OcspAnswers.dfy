/** Each field of an OCSP answer, and each error, in the fields of the certificates and the response. */
module OcspAnswers {
  import opened Wrappers
  import opened Sequences
  import opened Model
  import opened Serial
  import opened OcspStatus
  import opened OcspTimes

  // ----- who signs -----

  /** The response names this certificate as its responder, by its subject or by the SHA-1 digest of its key. */
  ghost predicate Responds(lib: Library, basic: BasicResponse, certificate: Certificate) {
    match basic.responderId
    case ByName(der) => der.Some? && certificate.subject == der.value
    case ByKey(keyHash) => keyHash == lib.digest(Sha1, certificate.publicKey)
  }

  ghost predicate RespondsAt(lib: Library, basic: BasicResponse, i: nat) {
    && i < |basic.certificates|
    && basic.certificates[i].Whole?
    && Responds(lib, basic, basic.certificates[i].certificate)
  }

  ghost predicate OnlyRespondsAt(lib: Library, basic: BasicResponse, i: nat) {
    RespondsAt(lib, basic, i) && forall j: nat | RespondsAt(lib, basic, j) :: j == i
  }

  /** The embedded certificate that responds in place of the issuer, if it is the only one. */
  ghost predicate IsDelegate(lib: Library, basic: BasicResponse, issuer: Certificate, certificate: Certificate) {
    && !Responds(lib, basic, issuer)
    && exists i: nat :: OnlyRespondsAt(lib, basic, i) && basic.certificates[i].certificate == certificate
  }

  ghost predicate IsSigner(lib: Library, basic: BasicResponse, issuer: Certificate, certificate: Certificate) {
    (Responds(lib, basic, issuer) && certificate == issuer) || IsDelegate(lib, basic, issuer, certificate)
  }

  lemma CandidatesExact(lib: Library, basic: BasicResponse)
    ensures Candidates(lib, basic) == [] <==> forall i: nat :: !RespondsAt(lib, basic, i)
    ensures |Candidates(lib, basic)| == 1 <==> exists i: nat :: OnlyRespondsAt(lib, basic, i)
    ensures forall i: nat | OnlyRespondsAt(lib, basic, i) ::
              Candidates(lib, basic) == [basic.certificates[i].certificate]
  {
    var all, candidates := basic.certificates, Candidates(lib, basic);
    CandidateFound(lib, basic, all);
    if candidates == [] {
      forall i: nat ensures !RespondsAt(lib, basic, i) {
        if i < |all| { assert !(all[i].Whole? && Responds(lib, basic, all[i].certificate)); }
      }
    } else {
      var i: nat :| i < |all| && all[i].Whole? && Responds(lib, basic, all[i].certificate);
      assert RespondsAt(lib, basic, i);
      if j: nat :| RespondsAt(lib, basic, j) && j != i {
        TwoCandidates(lib, basic, i, j);
      } else {
        assert OnlyRespondsAt(lib, basic, i);
      }
    }
    forall i: nat | OnlyRespondsAt(lib, basic, i) ensures candidates == [all[i].certificate] {
      SoleCandidate(lib, basic, i);
    }
  }

  lemma {:induction false} CandidateFound(lib: Library, basic: BasicResponse, part: seq<EmbeddedCertificate>)
    ensures FlatMap(part, Candidate(lib, basic)) == []
            <==> forall k | 0 <= k < |part| :: !(part[k].Whole? && Responds(lib, basic, part[k].certificate))
  {
    if part != [] {
      CandidateFound(lib, basic, part[1..]);
      assert part == [part[0]] + part[1..];
      FlatMapFirst(part[0], part[1..], Candidate(lib, basic));
    }
  }

  lemma SoleCandidate(lib: Library, basic: BasicResponse, i: nat)
    requires OnlyRespondsAt(lib, basic, i)
    ensures Candidates(lib, basic) == [basic.certificates[i].certificate]
  {
    var all, c := basic.certificates, Candidate(lib, basic);
    var front, back := all[..i], all[i + 1..];
    assert all == front + ([all[i]] + back);
    FlatMapSplit(front, [all[i]] + back, c);
    FlatMapFirst(all[i], back, c);
    forall k | 0 <= k < |front| ensures !(front[k].Whole? && Responds(lib, basic, front[k].certificate)) {
      assert !RespondsAt(lib, basic, k);
    }
    CandidateFound(lib, basic, front);
    forall k | 0 <= k < |back| ensures !(back[k].Whole? && Responds(lib, basic, back[k].certificate)) {
      assert !RespondsAt(lib, basic, i + 1 + k);
    }
    CandidateFound(lib, basic, back);
  }

  lemma TwoCandidates(lib: Library, basic: BasicResponse, i: nat, j: nat)
    requires RespondsAt(lib, basic, i) && RespondsAt(lib, basic, j) && i != j
    ensures |Candidates(lib, basic)| > 1
  {
    if i > j {
      TwoCandidates(lib, basic, j, i);
    } else {
      CandidatesSplit(lib, basic, j);
      assert basic.certificates[..j][i] in basic.certificates[..j];
      assert basic.certificates[i].certificate in FlatMap(basic.certificates[..j], Candidate(lib, basic));
    }
  }

  // ----- errors -----

  ghost predicate IsBadNonce(expected: Option<seq<Byte>>) {
    expected.Some? && (expected.value == [] || |expected.value| > 32)
  }

  /** Some certificate's key would have to be used, and the signature cannot even be read. */
  ghost predicate IsUnreadable(lib: Library, basic: BasicResponse, issuer: Certificate) {
    && !basic.signatureIsWellFormed
    && (Responds(lib, basic, issuer) || exists i: nat :: RespondsAt(lib, basic, i))
  }

  ghost predicate FirstUnsupported(responses: seq<SingleResponse>, k: nat) {
    && k < |responses| && responses[k].hashAlgorithm.OtherDigest?
    && forall j | 0 <= j < k :: !responses[j].hashAlgorithm.OtherDigest?
  }

  lemma {:induction false} UnsupportedIsFirst(lib: Library, responses: seq<SingleResponse>, certificate: Certificate,
                                              issuer: Certificate) returns (k: nat)
    requires MatchingResponses(lib, responses, certificate, issuer).Err?
    ensures FirstUnsupported(responses, k)
    ensures MatchingResponses(lib, responses, certificate, issuer)
            == Err(UnsupportedDigestAlgorithm(responses[k].hashAlgorithm.oid))
  {
    k := 0;
    if !responses[0].hashAlgorithm.OtherDigest? {
      var rest := UnsupportedIsFirst(lib, responses[1..], certificate, issuer);
      k := rest + 1;
    }
  }

  /** Each error has its own ground, and they are looked for in this order. */
  lemma ErrorsExact(lib: Library, inputs: Inputs, t: I64, policy: OcspPolicy)
    ensures Status(lib, inputs, t, policy).Err? ==> inputs.basic.Some?
    ensures inputs.basic.Some? ==>
              var r, basic := Status(lib, inputs, t, policy), inputs.basic.value;
              var nonce, unreadable := IsBadNonce(inputs.expectedNonce), IsUnreadable(lib, basic, inputs.issuer);
              var other := exists k: nat :: FirstUnsupported(basic.responses, k);
              && (r == Err(InvalidExpectedNonceLength) <==> nonce)
              && (r == Err(MalformedSignatureAlgorithm) <==> !nonce && unreadable)
              && (forall oid :: r == Err(UnsupportedDigestAlgorithm(oid)) <==>
                                && !nonce && !unreadable
                                && exists k: nat :: FirstUnsupported(basic.responses, k)
                                                    && basic.responses[k].hashAlgorithm.oid == oid)
              && (r == Err(DuplicateSingleResponse) <==>
                    && !nonce && !unreadable && !other
                    && TwoPlacesName(lib, basic.responses, inputs.certificate, inputs.issuer))
  {
    if inputs.basic.Some? {
      var basic := inputs.basic.value;
      CandidatesExact(lib, basic);
      MatchingExact(lib, basic.responses, inputs.certificate, inputs.issuer);
      if MatchingResponses(lib, basic.responses, inputs.certificate, inputs.issuer).Err? {
        var k := UnsupportedIsFirst(lib, basic.responses, inputs.certificate, inputs.issuer);
        assert forall j: nat | FirstUnsupported(basic.responses, j) :: j == k;
      }
    }
  }

  // ----- fields -----

  ghost predicate IsAnswered(lib: Library, inputs: Inputs, t: I64, policy: OcspPolicy) {
    inputs.basic.Some? && Status(lib, inputs, t, policy).Ok?
  }

  /** The signature is judged by the outcome under the signer's key, and stays open without a signer. */
  lemma SignatureExact(lib: Library, inputs: Inputs, t: I64, policy: OcspPolicy)
    requires IsAnswered(lib, inputs, t, policy)
    ensures var basic, state := inputs.basic.value, Status(lib, inputs, t, policy).value.signature.state;
            && (state == CheckState.Pass <==>
                  exists c :: IsSigner(lib, basic, inputs.issuer, c) && c.responseSignature == Valid)
            && (state == CheckState.Fail <==>
                  exists c :: IsSigner(lib, basic, inputs.issuer, c) && c.responseSignature == Invalid)
            && (state == CheckState.Indeterminate <==>
                  forall c | IsSigner(lib, basic, inputs.issuer, c) :: c.responseSignature == Unverifiable)
  {
    var basic, candidates := inputs.basic.value, Candidates(lib, inputs.basic.value);
    CandidatesExact(lib, basic);
    if Responds(lib, basic, inputs.issuer) {
      assert IsSigner(lib, basic, inputs.issuer, inputs.issuer);
    } else if |candidates| == 1 {
      assert IsSigner(lib, basic, inputs.issuer, candidates[0]);
    }
  }

  /** The issuer answers for itself; a delegate must stand and be within its validity, or may be left open. */
  lemma ResponderExact(lib: Library, inputs: Inputs, t: I64, policy: OcspPolicy)
    requires IsAnswered(lib, inputs, t, policy)
    ensures var basic, state := inputs.basic.value, Status(lib, inputs, t, policy).value.responder.state;
            && (state == CheckState.Pass <==>
                  || Responds(lib, basic, inputs.issuer)
                  || exists c :: IsDelegate(lib, basic, inputs.issuer, c)
                                 && DelegationPasses(lib, c, inputs.issuer, t, policy))
            && (state == CheckState.Indeterminate <==>
                  exists c :: IsDelegate(lib, basic, inputs.issuer, c)
                              && DelegationIsOpen(lib, c, inputs.issuer, t, policy))
            && (state == CheckState.Fail || state == CheckState.Pass || state == CheckState.Indeterminate)
  {
    var basic, candidates := inputs.basic.value, Candidates(lib, inputs.basic.value);
    CandidatesExact(lib, basic);
    if !Responds(lib, basic, inputs.issuer) && |candidates| == 1 {
      assert IsDelegate(lib, basic, inputs.issuer, candidates[0]);
      DelegationExact(lib, candidates[0], inputs.issuer, t, policy);
      DelegationOpenExact(lib, candidates[0], inputs.issuer, t, policy);
    }
  }

  /** The certificate's own link to its issuer. */
  lemma IssuerExact(lib: Library, inputs: Inputs, t: I64, policy: OcspPolicy)
    requires IsAnswered(lib, inputs, t, policy)
    ensures var state := Status(lib, inputs, t, policy).value.issuer.state;
            var linked := && inputs.certificate.issuer == inputs.issuer.subject
                          && inputs.certificate.outerAlgorithm == inputs.certificate.signedAlgorithm;
            && (state == CheckState.Pass <==> linked && inputs.certificate.issuerSignature == Valid)
            && (state == CheckState.Fail <==> !linked || inputs.certificate.issuerSignature == Invalid)
            && (state == CheckState.Indeterminate <==> linked && inputs.certificate.issuerSignature == Unverifiable)
  {
  }

  /** Some response names the certificate. */
  ghost predicate IsNamed(lib: Library, inputs: Inputs, single: SingleResponse) {
    && inputs.basic.Some? && single in inputs.basic.value.responses
    && Names(lib, single, inputs.certificate, inputs.issuer)
  }

  lemma MatchingIsNamed(lib: Library, inputs: Inputs, t: I64, policy: OcspPolicy)
    requires IsAnswered(lib, inputs, t, policy)
    ensures var matching := MatchingResponses(lib, inputs.basic.value.responses, inputs.certificate, inputs.issuer);
            && matching.Ok? && |matching.value| <= 1
            && forall single :: IsNamed(lib, inputs, single) <==> matching.value == [single]
  {
    MatchingExact(lib, inputs.basic.value.responses, inputs.certificate, inputs.issuer);
    var kept := MatchingResponses(lib, inputs.basic.value.responses, inputs.certificate, inputs.issuer).value;
    assert forall single :: single in kept <==> kept == [single];
  }

  /** The answer is about the one response that names the certificate; without one its status is unknown. */
  lemma SingleExact(lib: Library, inputs: Inputs, t: I64, policy: OcspPolicy)
    requires IsAnswered(lib, inputs, t, policy)
    ensures var r := Status(lib, inputs, t, policy).value;
            && r.certificateId.state
               == (if exists single :: IsNamed(lib, inputs, single) then CheckState.Pass else CheckState.Fail)
            && r.freshness.state
               == (if exists single :: IsNamed(lib, inputs, single) && IsFreshAt(inputs, single, t, policy)
                   then CheckState.Pass else CheckState.Fail)
            && ((forall single :: !IsNamed(lib, inputs, single)) ==>
                  r.responseCertificateStatus == r.effectiveStatus == UnknownStatus)
            && forall single | IsNamed(lib, inputs, single) ::
                 && (r.responseCertificateStatus == Good <==> single.status == StatusGood)
                 && (r.responseCertificateStatus == Revoked <==> single.status.StatusRevoked?)
                 && (r.responseCertificateStatus == UnknownStatus <==> single.status == StatusUnknown)
                 && (r.effectiveStatus == Revoked <==> single.status.StatusRevoked? && single.status.at <= t)
                 && (r.effectiveStatus == Good <==>
                       single.status == StatusGood || (single.status.StatusRevoked? && t < single.status.at))
                 && (r.effectiveStatus == UnknownStatus <==> single.status == StatusUnknown)
  {
    MatchingIsNamed(lib, inputs, t, policy);
    var matching := MatchingResponses(lib, inputs.basic.value.responses, inputs.certificate, inputs.issuer).value;
    if matching != [] {
      assert matching == [matching[0]] && IsNamed(lib, inputs, matching[0]);
      FreshnessIsExact(inputs.basic.value.producedAt, matching[0], t, policy.maxAge, policy.clockSkew);
    }
  }

  ghost predicate IsFreshAt(inputs: Inputs, single: SingleResponse, t: I64, policy: OcspPolicy) {
    && inputs.basic.Some?
    && ExactlyFresh(inputs.basic.value.producedAt, single.thisUpdate,
                    if single.nextUpdate.None? then None else Some(single.nextUpdate.value), t, policy.maxAge,
                    policy.clockSkew)
  }

  /** No extension list repeats an object identifier or marks one critical. */
  lemma ExtensionsExact(lib: Library, inputs: Inputs, t: I64, policy: OcspPolicy)
    requires IsAnswered(lib, inputs, t, policy)
    ensures var basic := inputs.basic.value;
            Status(lib, inputs, t, policy).value.extensions.state
            == if && IsPlain(basic.extensions)
                  && forall k | 0 <= k < |basic.responses| :: IsPlain(basic.responses[k].extensions)
               then CheckState.Pass
               else CheckState.Fail
  {
    var basic := inputs.basic.value;
    PlainExact(basic.extensions);
    forall k | 0 <= k < |basic.responses|
      ensures IsPlain(basic.responses[k].extensions) <==> ExtensionsAcceptable(basic.responses[k].extensions)
    {
      PlainExact(basic.responses[k].extensions);
    }
    assert forall single | single in basic.responses ::
        exists k :: 0 <= k < |basic.responses| && basic.responses[k] == single;
  }

  ghost predicate IsPlain(extensions: seq<Extension>) {
    forall i | 0 <= i < |extensions| ::
      && !extensions[i].critical
      && forall j | 0 <= j < |extensions| && extensions[j].oid == extensions[i].oid :: j == i
  }

  lemma PlainExact(extensions: seq<Extension>)
    ensures IsPlain(extensions) <==> ExtensionsAcceptable(extensions)
  {
    if IsPlain(extensions) {
      assert forall i, j | 0 <= i < j < |extensions| :: extensions[i].oid != extensions[j].oid;
    }
  }

  /** The nonce is open if none is expected, passes if the only one is the expected one, and otherwise fails. */
  lemma NonceFieldExact(lib: Library, inputs: Inputs, t: I64, policy: OcspPolicy)
    requires IsAnswered(lib, inputs, t, policy)
    ensures var extensions, state := inputs.basic.value.extensions, Status(lib, inputs, t, policy).value.nonce.state;
            state == if inputs.expectedNonce.None? then CheckState.Indeterminate
                     else if exists i: nat :: SoleNonceAt(extensions, i) && extensions[i].nonce == inputs.expectedNonce
                     then CheckState.Pass
                     else CheckState.Fail
  {
    NonceExact(inputs.basic.value, inputs.expectedNonce);
  }

  /** Everything but the status itself is in order. */
  ghost predicate IsUsable(inputs: Inputs, r: OcspStatusResult) {
    && r.responder.state == CheckState.Pass && r.signature.state == CheckState.Pass
    && r.issuer.state == CheckState.Pass && r.certificateId.state == CheckState.Pass
    && r.freshness.state == CheckState.Pass && r.extensions.state == CheckState.Pass
    && (inputs.expectedNonce.Some? ==> r.nonce.state == CheckState.Pass)
  }

  /** How the revocation state follows from the other fields and the mode. */
  lemma RevocationExact(lib: Library, inputs: Inputs, t: I64, policy: OcspPolicy)
    requires IsAnswered(lib, inputs, t, policy)
    ensures var r, mode := Status(lib, inputs, t, policy).value, policy.mode;
            var decided := IsUsable(inputs, r) && r.effectiveStatus != UnknownStatus;
            && (r.revocation.state == CheckState.NotApplicable <==> mode == NotRequired)
            && (r.revocation.state == CheckState.Pass <==>
                  mode != NotRequired && IsUsable(inputs, r) && r.effectiveStatus == Good)
            && (r.revocation.state == CheckState.Fail <==>
                  || (mode == HardFail && !(decided && r.effectiveStatus == Good))
                  || (mode == SoftFail && decided && r.effectiveStatus == Revoked))
            && (r.revocation.state == CheckState.Indeterminate <==> mode == SoftFail && !decided)
  {
    SingleExact(lib, inputs, t, policy);
  }

  /** What every answer carries, and the whole answer when there is no response to judge. */
  lemma EnvelopeExact(lib: Library, inputs: Inputs, t: I64, policy: OcspPolicy)
    requires Status(lib, inputs, t, policy).Ok?
    ensures var r := Status(lib, inputs, t, policy).value;
            && r.appliedRevocationPolicy.mode == policy.mode
            && r.appliedRevocationPolicy.maxAgeSeconds == Some(policy.maxAge as nat)
            && r.appliedRevocationPolicy.clockSkewSeconds == Some(policy.clockSkew as nat)
            && (forall check | check in Checks(r) :: check.confidence == Observed)
            && r.responseStatus.state == (if inputs.basic.Some? then CheckState.Pass else CheckState.Fail)
            && (inputs.basic.None? ==>
                  && (forall check | check in Checks(r)[1..] :: check.state == CheckState.Indeterminate)
                  && r.responseCertificateStatus == r.effectiveStatus == Unavailable)
  {
  }

  /** The checks of an answer, that of the response status first. */
  ghost function Checks(r: OcspStatusResult): seq<CheckResult> {
    [r.responseStatus, r.signature, r.responder, r.issuer, r.certificateId, r.freshness, r.extensions, r.nonce,
     r.revocation]
  }

  /** A certificate is only ever reported good under an unbroken link to its issuer, by a signer whose key verifies. */
  lemma PassNeedsEverything(lib: Library, inputs: Inputs, t: I64, policy: OcspPolicy)
    requires Status(lib, inputs, t, policy).Ok?
    requires Status(lib, inputs, t, policy).value.revocation.state == CheckState.Pass
    ensures inputs.basic.Some?
    ensures inputs.certificate.issuer == inputs.issuer.subject
    ensures inputs.certificate.outerAlgorithm == inputs.certificate.signedAlgorithm
    ensures inputs.certificate.issuerSignature == Valid
    ensures exists c :: IsSigner(lib, inputs.basic.value, inputs.issuer, c) && c.responseSignature == Valid
    ensures exists single :: && IsNamed(lib, inputs, single) && IsFreshAt(inputs, single, t, policy)
                             && (single.status == StatusGood || (single.status.StatusRevoked? && t < single.status.at))
    ensures inputs.expectedNonce.Some? ==>
              exists i: nat :: SoleNonceAt(inputs.basic.value.extensions, i)
                               && inputs.basic.value.extensions[i].nonce == inputs.expectedNonce
  {
    UnavailableOnlyWithoutResponse(lib, inputs, t, policy);
    RevocationExact(lib, inputs, t, policy);
    IssuerExact(lib, inputs, t, policy);
    SignatureExact(lib, inputs, t, policy);
    SingleExact(lib, inputs, t, policy);
    NonceFieldExact(lib, inputs, t, policy);
  }
}
