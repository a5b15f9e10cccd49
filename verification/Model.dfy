/** The request, evidence and result records of src/model.rs. */
module Model {
  import opened Wrappers

  const API_VERSION := "hybrid-x509-evidence/v9"

  datatype Policy = P0Classical | P1OptionalHybrid | P2RequiredHybrid | P3Continuity

  datatype PathPosition = EndEntity | Intermediate | TrustAnchorPosition

  datatype PathScope = EndEntityScope | CertificationPath {
    predicate Includes(position: PathPosition) {
      match this
      case EndEntityScope => position.EndEntity?
      case CertificationPath => !position.TrustAnchorPosition?
    }
  }

  datatype AlgorithmSecurity = Classical | PostQuantum | Hybrid | Unknown {
    predicate IsClassical() { Classical? || Hybrid? }

    predicate IsPostQuantum() { PostQuantum? || Hybrid? }
  }

  datatype BindingDesign = Unbound | AtomicComposite | Catalyst | Chameleon | RelatedCertificate | UnknownDesign {
    predicate IsHybridCertificateSignatureDesign() { AtomicComposite? || Catalyst? || Chameleon? }
  }

  datatype CertificateNode = CertificateNode(
    id: string,
    position: PathPosition,
    subjectPublicKeyScheme: AlgorithmSecurity,
    certificateSignatureScheme: AlgorithmSecurity,
    bindingDesign: BindingDesign,
    derSha256: Option<string>,
    issuerEdgeSha256: Option<string>)
  {
    predicate HasUnknownCryptoProperty() {
      subjectPublicKeyScheme.Unknown? || certificateSignatureScheme.Unknown? || bindingDesign.UnknownDesign?
    }

    predicate RequiresClassical() {
      certificateSignatureScheme.IsClassical() || bindingDesign.IsHybridCertificateSignatureDesign()
    }

    predicate RequiresPostQuantum() {
      || certificateSignatureScheme.IsPostQuantum()
      || bindingDesign.IsHybridCertificateSignatureDesign()
      || bindingDesign.RelatedCertificate?
    }

    predicate HasHybridDesign() {
      bindingDesign.IsHybridCertificateSignatureDesign() || certificateSignatureScheme.Hybrid?
    }

    /** Whether the node needs evidence of the given kind. */
    predicate Requires(kind: EvidenceKind) {
      match kind
      case ClassicalEvidence => RequiresClassical()
      case PostQuantumEvidence => RequiresPostQuantum()
    }
  }

  datatype EvidenceKind = ClassicalEvidence | PostQuantumEvidence {
    /** The name Rust's Debug formatting prints. */
    function Name(): string {
      match this
      case ClassicalEvidence => "Classical"
      case PostQuantumEvidence => "PostQuantum"
    }
  }

  datatype CheckState = Pass | Fail | Indeterminate | NotChecked | NotApplicable

  datatype Confidence = Observed | BehaviorallyEstablished | Inferred | UnknownConfidence {
    predicate IsLow() { Inferred? || UnknownConfidence? }
  }

  datatype CheckResult = CheckResult(state: CheckState, confidence: Confidence)

  /** The eight named checks of one evidence item. */
  datatype EvidenceSlot =
    Present | Recognized | Signature | Binding | Path | Validity | Revocation | DecisionSensitive

  datatype NamedCheck = NamedCheck(slot: EvidenceSlot, check: CheckResult)

  datatype RevocationMethod = Ocsp | Crl | NoMethod

  datatype RevocationPolicyMode = HardFail | SoftFail | NotRequired

  datatype RevocationPolicy = RevocationPolicy(
    mode: RevocationPolicyMode,
    maxAgeSeconds: Option<nat>,
    clockSkewSeconds: Option<nat>)

  datatype Evidence = Evidence(
    id: string,
    certificateId: string,
    position: PathPosition,
    certificateDerSha256: Option<string>,
    evidenceArtifactDerSha256: Option<string>,
    issuerEdgeSha256: Option<string>,
    authenticationOperationId: Option<string>,
    kind: EvidenceKind,
    present: CheckResult,
    recognized: CheckResult,
    signature: CheckResult,
    binding: CheckResult,
    path: CheckResult,
    validity: CheckResult,
    revocation: CheckResult,
    revocationMethod: RevocationMethod,
    appliedRevocationPolicy: RevocationPolicy,
    decisionSensitive: CheckResult)
  {
    function Check(slot: EvidenceSlot): CheckResult {
      match slot
      case Present => present
      case Recognized => recognized
      case Signature => signature
      case Binding => binding
      case Path => path
      case Validity => validity
      case Revocation => revocation
      case DecisionSensitive => decisionSensitive
    }

    /** The fixed list that Evidence::checks returns. */
    function Checks(): (r: seq<NamedCheck>)
      ensures |r| == 8
      ensures forall k :: 0 <= k < 8 ==> r[k].check == Check(r[k].slot)
      ensures forall slot: EvidenceSlot :: NamedCheck(slot, Check(slot)) in r
    {
      var r := [
        NamedCheck(Present, present), NamedCheck(Recognized, recognized),
        NamedCheck(Signature, signature), NamedCheck(Binding, binding),
        NamedCheck(Path, path), NamedCheck(Validity, validity),
        NamedCheck(Revocation, revocation), NamedCheck(DecisionSensitive, decisionSensitive)];
      assert r[0].slot == Present && r[1].slot == Recognized && r[2].slot == Signature && r[3].slot == Binding;
      assert r[4].slot == Path && r[5].slot == Validity && r[6].slot == Revocation && r[7].slot == DecisionSensitive;
      r
    }
  }

  datatype StackVerdict = Accepted | Rejected | Undecided | UnsupportedStack

  datatype ValidationProfile = X509Path | WebPkiServer | EvidenceSignature

  datatype PathObservationSource = PresentedInput | AdapterSelected | NotReported

  datatype TrustAnchor =
    | CertificateDerSha256(derSha256: string)
    | NameAndSpkiSha256(name: string, spkiSha256: string)
    | LocalIdentifier(identifier: string)

  datatype ExecutionIsolation = Container | ProcessOnly

  datatype VersionTrack = Current | Study | CurrentAndStudy | UserSupplied

  datatype StackObservation = StackObservation(
    adapter: string,
    version: string,
    verdict: StackVerdict,
    versionTrack: VersionTrack,
    validationProfile: ValidationProfile,
    executionIsolation: ExecutionIsolation,
    certificationPathDerSha256: seq<string>,
    selectedPathSource: PathObservationSource,
    trustAnchor: TrustAnchor,
    appliedValidationTime: string,
    validationTime: CheckResult)

  datatype AuthenticationLevel = ClassicalLevel | HybridLevel

  datatype PairedAuthentication = PairedAuthentication(
    operationId: string,
    classicalCertificateId: string,
    postQuantumCertificateDerSha256: string,
    sameAuthenticationOperation: CheckResult)

  datatype VerificationRequest = VerificationRequest(
    apiVersion: string,
    policy: Policy,
    pathScope: PathScope,
    validationTime: string,
    previousAuthentication: Option<AuthenticationLevel>,
    revocationPolicy: RevocationPolicy,
    stack: StackObservation,
    expectedTrustAnchor: TrustAnchor,
    certificatePath: seq<CertificateNode>,
    pairedAuthentications: seq<PairedAuthentication>,
    evidence: seq<Evidence>)

  datatype PolicyVerdict =
    ClassicalClaimSetSatisfied | HybridClaimSetSatisfied | Reject | IndeterminateVerdict | Unsupported

  /** What a failed check is called: one of the evidence slots, or the pair check. */
  datatype CheckLabel = Slot(slot: EvidenceSlot) | SameAuthenticationOperation

  datatype FailedCheck = FailedCheck(
    evidenceId: string, check: CheckLabel, state: CheckState, confidence: Confidence)

  /** One constructor for each distinct reason text of the oracle. */
  datatype Reason =
    | UnsupportedInput
    | ClassicalOrStackFailed
    | ClassicalPassedP0
    | ClassicalIncomplete
    | BothPassedP1
    | OnlyClassicalPassedP1
    | AllRequiredPassed
    | AcceptedWithoutPostQuantum
    | RequiredFailed
    | RequiredIncomplete
    | ContinuityRecordRequired

  datatype VerificationResult = VerificationResult(
    apiVersion: string,
    policy: Policy,
    pathScope: PathScope,
    validationTime: string,
    previousAuthentication: Option<AuthenticationLevel>,
    revocationPolicy: RevocationPolicy,
    stack: StackObservation,
    expectedTrustAnchor: TrustAnchor,
    certificatePath: seq<CertificateNode>,
    pairedAuthentications: seq<PairedAuthentication>,
    stackVerdict: StackVerdict,
    policyVerdict: PolicyVerdict,
    classicalOnlyFallback: bool,
    lifecycleDesynchronization: bool,
    evaluatedEvidence: seq<Evidence>,
    failedChecks: seq<FailedCheck>,
    reason: Reason)
}
