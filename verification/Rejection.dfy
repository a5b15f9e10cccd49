/** Exactly which requests are rejected, and which are unsupported, in terms of single observations. */
module Rejection {
  import opened Wrappers
  import opened Sequences
  import opened Model
  import opened Terms
  import opened WellFormedness
  import opened Aggregation
  import opened Oracle
  import opened HybridAcceptance

  /** A mandatory check that failed, or does not apply, with direct confidence. */
  ghost predicate Refuted(check: CheckResult) {
    IsDirect(check.confidence) && (check.state.Fail? || check.state.NotApplicable?)
  }

  /** As above, but binding may be not applicable, and so may revocation when it is not required. */
  ghost predicate RefutedSlot(item: Evidence, slot: EvidenceSlot, mode: RevocationPolicyMode) {
    && Refuted(item.Check(slot))
    && (item.Check(slot).state.Fail? || !MayBeInapplicable(slot, mode))
  }

  /** The evidence of the kind for the node is missing, or some check of it is refuted. */
  ghost predicate EvidenceRefuted(request: VerificationRequest, node: CertificateNode, kind: EvidenceKind) {
    || (forall item | item in request.evidence :: !IsEvidenceFor(item, node, kind))
    || exists item, slot | item in request.evidence && IsEvidenceFor(item, node, kind) ::
         RefutedSlot(item, slot, request.revocationPolicy.mode)
  }

  /** The node binds nothing post-quantum: by design, for want of evidence, or because its operation was refuted. */
  ghost predicate DesignRefuted(request: VerificationRequest, node: CertificateNode) {
    && !IsHybridByDesign(node)
    && (|| !node.bindingDesign.RelatedCertificate?
        || (forall item | item in request.evidence :: item.certificateId != node.id)
        || exists item, pair | item in request.evidence && pair in request.pairedAuthentications ::
             && item.certificateId == node.id
             && item.authenticationOperationId == Some(pair.operationId)
             && Refuted(pair.sameAuthenticationOperation))
  }

  ghost predicate StackRefuted(request: VerificationRequest) {
    || request.stack.verdict.Rejected?
    || (request.stack.verdict.Accepted?
        && request.stack.appliedValidationTime == request.validationTime
        && Refuted(request.stack.validationTime))
  }

  ghost predicate IsSupported(request: VerificationRequest) {
    !request.stack.verdict.UnsupportedStack? && forall node | InScope(request, node) :: !IsUnknown(node)
  }

  lemma ItemFailsExact(node: CertificateNode, item: Evidence, mode: RevocationPolicyMode)
    ensures ItemShows(node, item, mode, Failed) <==> exists slot :: RefutedSlot(item, slot, mode)
  {
    forall slot ensures SlotState(item, slot, mode).Failed? <==> RefutedSlot(item, slot, mode) {
    }
  }

  lemma EvidenceFailsExact(request: VerificationRequest, isRfc3339: string -> bool, node: CertificateNode,
                           kind: EvidenceKind)
    requires WellFormed(request, isRfc3339) && InScope(request, node)
    ensures CertificateShows(node, ScopedItems(request, kind), request.revocationPolicy.mode, Failed) <==>
            EvidenceRefuted(request, node, kind)
  {
    ItemsOfNode(request, isRfc3339, node, kind);
    FailsByItems(request, node, kind);
  }

  lemma FailsByItems(request: VerificationRequest, node: CertificateNode, kind: EvidenceKind)
    requires forall item :: item in ScopedItems(request, kind) && item.certificateId == node.id <==>
                            item in request.evidence && IsEvidenceFor(item, node, kind)
    ensures CertificateShows(node, ScopedItems(request, kind), request.revocationPolicy.mode, Failed) <==>
            EvidenceRefuted(request, node, kind)
  {
    var items, mode := ScopedItems(request, kind), request.revocationPolicy.mode;
    forall item ensures ItemShows(node, item, mode, Failed) <==> exists slot :: RefutedSlot(item, slot, mode) {
      ItemFailsExact(node, item, mode);
    }
    if item :| item in items && item.certificateId == node.id && ItemShows(node, item, mode, Failed) {
      var slot :| RefutedSlot(item, slot, mode);
      assert IsEvidenceFor(item, node, kind);
    }
    if item, slot :| item in request.evidence && IsEvidenceFor(item, node, kind) && RefutedSlot(item, slot, mode) {
      assert item in items && ItemShows(node, item, mode, Failed);
    }
  }

  lemma DesignFailsExact(request: VerificationRequest, isRfc3339: string -> bool, node: CertificateNode)
    requires WellFormed(request, isRfc3339) && node in request.certificatePath
    ensures CertificateDesignState(node, request).Failed? <==> DesignRefuted(request, node)
  {
    FirstNamed(request, node);
    var found := Find(request.evidence, NamesCertificate(node.id));
    if !IsHybridByDesign(node) && node.bindingDesign.RelatedCertificate? && found.Some? {
      var pair := NamedPairOfNode(request, isRfc3339, node, found.value);
      RefutedByName(request, node, found.value, pair);
      DesignOfPair(request, node, pair);
    } else {
      UnpairedDesign(request, node);
    }
  }

  lemma DesignOfPair(request: VerificationRequest, node: CertificateNode, pair: PairedAuthentication)
    requires !IsHybridByDesign(node) && node.bindingDesign.RelatedCertificate?
    requires FirstNamedPair(node, request) == Some(pair)
    ensures CertificateDesignState(node, request).Failed? <==> Refuted(pair.sameAuthenticationOperation)
  {
  }

  lemma UnpairedDesign(request: VerificationRequest, node: CertificateNode)
    requires IsHybridByDesign(node) || !node.bindingDesign.RelatedCertificate?
             || Find(request.evidence, NamesCertificate(node.id)).None?
    ensures CertificateDesignState(node, request).Failed? <==> DesignRefuted(request, node)
  {
    FirstNamed(request, node);
  }

  lemma RefutedByName(request: VerificationRequest, node: CertificateNode, item: Evidence, pair: PairedAuthentication)
    requires node.bindingDesign.RelatedCertificate? && item in request.evidence && item.certificateId == node.id
    requires pair in request.pairedAuthentications
    requires forall other | other in request.evidence && other.certificateId == node.id ::
               other.authenticationOperationId == Some(pair.operationId)
    requires forall other | other in request.pairedAuthentications && other.operationId == pair.operationId ::
               other == pair
    ensures DesignRefuted(request, node) <==> !IsHybridByDesign(node) && Refuted(pair.sameAuthenticationOperation)
  {
    assert item.authenticationOperationId == Some(pair.operationId);
  }

  /** Some observation about the node that the required-hybrid policy needs is refuted. */
  ghost predicate NodeRefuted(request: VerificationRequest, node: CertificateNode) {
    || DesignRefuted(request, node)
    || exists kind | Needs(node, kind) :: EvidenceRefuted(request, node, kind)
  }

  lemma NodeFailsExact(request: VerificationRequest, isRfc3339: string -> bool, node: CertificateNode)
    requires WellFormed(request, isRfc3339) && InScope(request, node)
    ensures NodeContributes(request, node, Failed) <==> NodeRefuted(request, node)
  {
    DesignFailsExact(request, isRfc3339, node);
    forall kind
      ensures NodeShows(request, node, kind, Failed) <==> Needs(node, kind) && EvidenceRefuted(request, node, kind)
    {
      EvidenceFailsExact(request, isRfc3339, node, kind);
    }
    NodeFailsByParts(request, node);
  }

  lemma NodeFailsByParts(request: VerificationRequest, node: CertificateNode)
    requires CertificateDesignState(node, request).Failed? <==> DesignRefuted(request, node)
    requires forall kind ::
               NodeShows(request, node, kind, Failed) <==> Needs(node, kind) && EvidenceRefuted(request, node, kind)
    ensures NodeContributes(request, node, Failed) <==> NodeRefuted(request, node)
  {
  }

  lemma StackFailsExact(request: VerificationRequest)
    requires !request.stack.verdict.UnsupportedStack?
    ensures StackState(request).Failed? <==> StackRefuted(request)
  {
  }

  lemma RequiredRejectionByNodes(request: VerificationRequest)
    requires !IsUnsupported(request) && request.policy.P2RequiredHybrid?
    ensures Assessment(request).policyVerdict.Reject? <==>
            StackState(request).Failed?
            || exists node | InScope(request, node) :: NodeContributes(request, node, Failed)
  {
    RequiredHybridIsMinimum(request);
    ScopedNodes(request);
  }

  lemma RequiredRejectionExact(request: VerificationRequest, isRfc3339: string -> bool)
    requires WellFormed(request, isRfc3339) && !IsUnsupported(request) && request.policy.P2RequiredHybrid?
    ensures Assessment(request).policyVerdict.Reject? <==>
            StackRefuted(request) || exists node | InScope(request, node) :: NodeRefuted(request, node)
  {
    RequiredRejectionByNodes(request);
    StackFailsExact(request);
    if node :| InScope(request, node) && NodeContributes(request, node, Failed) {
      NodeFailsExact(request, isRfc3339, node);
    }
    if node :| InScope(request, node) && NodeRefuted(request, node) {
      NodeFailsExact(request, isRfc3339, node);
    }
  }

  lemma ClassicalRejectionByChecks(request: VerificationRequest, isRfc3339: string -> bool)
    requires WellFormed(request, isRfc3339) && !IsUnsupported(request)
    requires request.policy.P0Classical? || request.policy.P1OptionalHybrid?
    ensures Assessment(request).policyVerdict.Reject? <==>
            || !RequiresClassicalInScope(request)
            || StackRefuted(request)
            || exists node | InScope(request, node) && Needs(node, ClassicalEvidence) ::
                 EvidenceRefuted(request, node, ClassicalEvidence)
  {
    ClassicalRejectionExact(request);
    StackFailsExact(request);
    if node :| InScope(request, node) && NodeShows(request, node, ClassicalEvidence, Failed) {
      EvidenceFailsExact(request, isRfc3339, node, ClassicalEvidence);
    }
    if node :| InScope(request, node) && Needs(node, ClassicalEvidence)
               && EvidenceRefuted(request, node, ClassicalEvidence) {
      EvidenceFailsExact(request, isRfc3339, node, ClassicalEvidence);
    }
  }

  /** What a supported request is rejected for under each policy. */
  ghost predicate RejectionGrounds(request: VerificationRequest) {
    match request.policy
    case P2RequiredHybrid =>
      StackRefuted(request) || exists node | InScope(request, node) :: NodeRefuted(request, node)
    case P3Continuity => false
    case _ =>
      || !RequiresClassicalInScope(request)
      || StackRefuted(request)
      || exists node | InScope(request, node) && Needs(node, ClassicalEvidence) ::
           EvidenceRefuted(request, node, ClassicalEvidence)
  }

  lemma SupportedExact(request: VerificationRequest)
    ensures IsSupported(request) <==> !IsUnsupported(request)
  {
    ScopedNodes(request);
  }

  lemma DecisionsAreNotUnsupported(policy: Policy, a: Aggregates)
    requires !a.profile.Failed? && !a.path.Failed?
    ensures !Decide(policy, a).verdict.Unsupported?
  {
  }

  lemma UnsupportedAssessmentExact(request: VerificationRequest)
    ensures Assessment(request).policyVerdict.Unsupported? <==> IsUnsupported(request)
  {
    if !IsUnsupported(request) { DecisionsAreNotUnsupported(request.policy, AggregatesOf(request)); }
  }

  lemma RejectedAssessmentExact(request: VerificationRequest, isRfc3339: string -> bool)
    requires WellFormed(request, isRfc3339) && !IsUnsupported(request)
    ensures Assessment(request).policyVerdict.Reject? <==> RejectionGrounds(request)
  {
    match request.policy
    case P2RequiredHybrid => RequiredRejectionExact(request, isRfc3339);
    case P3Continuity =>
    case _ => ClassicalRejectionByChecks(request, isRfc3339);
  }

  /** The evaluation rejects exactly the well-formed, supported requests with such a ground. */
  lemma RejectVerdictExact(request: VerificationRequest, isRfc3339: string -> bool)
    ensures (Evaluation(request, isRfc3339).Ok? && Evaluation(request, isRfc3339).value.policyVerdict.Reject?)
            <==> WellFormed(request, isRfc3339) && IsSupported(request) && RejectionGrounds(request)
  {
    ValidationExact(request, isRfc3339);
    SupportedExact(request);
    UnsupportedAssessmentExact(request);
    if WellFormed(request, isRfc3339) && !IsUnsupported(request) { RejectedAssessmentExact(request, isRfc3339); }
  }

  /**
   * A well-formed request is unsupported exactly for its stack or for an unknown property in scope, whatever the
   * policy.
   */
  lemma UnsupportedVerdictExact(request: VerificationRequest, isRfc3339: string -> bool)
    ensures (Evaluation(request, isRfc3339).Ok? && Evaluation(request, isRfc3339).value.policyVerdict.Unsupported?)
            <==> && WellFormed(request, isRfc3339)
                 && (|| request.stack.verdict == UnsupportedStack
                     || exists node | InScope(request, node) ::
                          || node.subjectPublicKeyScheme == Unknown
                          || node.certificateSignatureScheme == Unknown
                          || node.bindingDesign == UnknownDesign)
  {
    ValidationExact(request, isRfc3339);
    SupportedExact(request);
    UnsupportedAssessmentExact(request);
  }
}
