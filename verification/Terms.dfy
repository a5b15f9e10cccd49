/**
 * The words of the verdicts, spelled out in the fields of the request. The operations of Model, RequestValidation and
 * Aggregation do not use them: that those agree with these words is proved wherever a theorem is stated in them.
 */
module Terms {
  import opened Model

  /** Observed, or established by behavior; not inferred and not unknown. */
  ghost predicate IsDirect(confidence: Confidence) { confidence == Observed || confidence == BehaviorallyEstablished }

  /** A check that may be not applicable: binding always, revocation when it is not required. */
  ghost predicate MayBeInapplicable(slot: EvidenceSlot, mode: RevocationPolicyMode) {
    slot == Binding || (slot == Revocation && mode == NotRequired)
  }

  ghost predicate Covers(scope: PathScope, position: PathPosition) {
    match scope
    case EndEntityScope => position == EndEntity
    case CertificationPath => position == EndEntity || position == Intermediate
  }

  ghost predicate IsHybridByDesign(node: CertificateNode) {
    || node.certificateSignatureScheme == Hybrid
    || node.bindingDesign == AtomicComposite || node.bindingDesign == Catalyst || node.bindingDesign == Chameleon
  }

  /** Whether the node needs evidence of the kind. */
  ghost predicate Needs(node: CertificateNode, kind: EvidenceKind) {
    match kind
    case ClassicalEvidence => node.certificateSignatureScheme == Classical || IsHybridByDesign(node)
    case PostQuantumEvidence =>
      || node.certificateSignatureScheme == PostQuantum
      || node.bindingDesign == RelatedCertificate
      || IsHybridByDesign(node)
  }

  ghost predicate IsUnknown(node: CertificateNode) {
    || node.subjectPublicKeyScheme == Unknown
    || node.certificateSignatureScheme == Unknown
    || node.bindingDesign == UnknownDesign
  }

  ghost predicate InScope(request: VerificationRequest, node: CertificateNode) {
    node in request.certificatePath && Covers(request.pathScope, node.position)
  }

  /** The evidence of a kind for a certificate, as far as it is in scope. */
  ghost predicate IsScopedEvidence(request: VerificationRequest, item: Evidence, kind: EvidenceKind, id: string) {
    && item in request.evidence
    && Covers(request.pathScope, item.position)
    && item.kind == kind
    && item.certificateId == id
  }

  ghost predicate Established(check: CheckResult) { check.state.Pass? && IsDirect(check.confidence) }

  /** A check that applies and is not established. */
  ghost predicate IsQuestionable(check: CheckResult) { !check.state.NotApplicable? && !Established(check) }
}
