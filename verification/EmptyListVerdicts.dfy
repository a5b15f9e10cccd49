/** What a verdict can be when no failed check is listed. */
module EmptyListVerdicts {
  import opened Wrappers
  import opened Sequences
  import opened Model
  import opened Terms
  import opened WellFormedness
  import opened Aggregation
  import opened Oracle
  import opened HybridAcceptance
  import opened FailureAccounting
  import opened Rejection

  /** Some evidence of the kind for the node calls a check inapplicable where it may not be, with direct confidence. */
  ghost predicate HasMisplaced(request: VerificationRequest, node: CertificateNode, kind: EvidenceKind) {
    exists item, slot | item in request.evidence && IsEvidenceFor(item, node, kind) ::
      && item.Check(slot).state.NotApplicable?
      && IsDirect(item.Check(slot).confidence)
      && !MayBeInapplicable(slot, request.revocationPolicy.mode)
  }

  /** All evidence of the kind for the node carries its hashes, and its inapplicable checks are allowed and direct. */
  ghost predicate IsAccountable(request: VerificationRequest, node: CertificateNode, kind: EvidenceKind) {
    forall item | item in request.evidence && IsEvidenceFor(item, node, kind) ::
      Accountable(node, item, request.revocationPolicy.mode)
  }

  ghost predicate BindsPostQuantum(node: CertificateNode) {
    IsHybridByDesign(node) || node.bindingDesign.RelatedCertificate?
  }

  // ----- what an empty list says about one node -----

  lemma NothingListedFor(request: VerificationRequest, isRfc3339: string -> bool, node: CertificateNode,
                         item: Evidence)
    requires WellFormed(request, isRfc3339) && NothingReported(request)
    requires InScope(request, node) && item in request.evidence && item.certificateId == node.id
    ensures forall slot :: !IsQuestionable(item.Check(slot))
  {
    NodeIsBound(request, isRfc3339, node, item);
  }

  lemma EvidenceIsThere(request: VerificationRequest, isRfc3339: string -> bool, node: CertificateNode,
                        kind: EvidenceKind)
    requires WellFormed(request, isRfc3339) && NothingReported(request)
    requires InScope(request, node) && Needs(node, kind)
    ensures exists item | item in request.evidence :: IsEvidenceFor(item, node, kind)
  {
    assert !IsAbsent(request, node, kind);
    var item :| IsScopedEvidence(request, item, kind, node.id);
    assert IsEvidenceFor(item, node, kind);
  }

  lemma UnlistedRefutation(item: Evidence, slot: EvidenceSlot, mode: RevocationPolicyMode)
    requires !IsQuestionable(item.Check(slot))
    ensures RefutedSlot(item, slot, mode) <==>
            && item.Check(slot).state.NotApplicable?
            && IsDirect(item.Check(slot).confidence)
            && !MayBeInapplicable(slot, mode)
  {
  }

  lemma RefutedIsMisplaced(request: VerificationRequest, isRfc3339: string -> bool, node: CertificateNode,
                           kind: EvidenceKind)
    requires WellFormed(request, isRfc3339) && NothingReported(request)
    requires InScope(request, node) && Needs(node, kind)
    ensures EvidenceRefuted(request, node, kind) <==> HasMisplaced(request, node, kind)
  {
    EvidenceIsThere(request, isRfc3339, node, kind);
    forall item, slot | item in request.evidence && IsEvidenceFor(item, node, kind)
      ensures RefutedSlot(item, slot, request.revocationPolicy.mode) <==>
              && item.Check(slot).state.NotApplicable?
              && IsDirect(item.Check(slot).confidence)
              && !MayBeInapplicable(slot, request.revocationPolicy.mode)
    {
      NothingListedFor(request, isRfc3339, node, item);
      UnlistedRefutation(item, slot, request.revocationPolicy.mode);
    }
  }

  lemma CompleteIsAccountable(request: VerificationRequest, isRfc3339: string -> bool, node: CertificateNode,
                              kind: EvidenceKind)
    requires WellFormed(request, isRfc3339) && NothingReported(request)
    requires InScope(request, node) && Needs(node, kind)
    ensures HasOneCompleteItem(request, node, kind) <==> IsAccountable(request, node, kind)
  {
    EvidenceIsThere(request, isRfc3339, node, kind);
    forall item | item in request.evidence && IsEvidenceFor(item, node, kind)
      ensures Complete(request, node, item) <==> Accountable(node, item, request.revocationPolicy.mode)
    {
      NothingListedFor(request, isRfc3339, node, item);
      UnlistedItem(node, item, request.revocationPolicy.mode);
      CompleteExact(request, isRfc3339, node, item);
    }
    OneByAccount(request, node, kind);
  }

  lemma OneByAccount(request: VerificationRequest, node: CertificateNode, kind: EvidenceKind)
    requires Distinct(request.evidence, EvidenceKey)
    requires exists item | item in request.evidence :: IsEvidenceFor(item, node, kind)
    requires forall item | item in request.evidence && IsEvidenceFor(item, node, kind) ::
               (Complete(request, node, item) <==> Accountable(node, item, request.revocationPolicy.mode))
    ensures HasOneCompleteItem(request, node, kind) <==> IsAccountable(request, node, kind)
  {
    if HasOneCompleteItem(request, node, kind) { OnlyCompleteItems(request, node, kind); }
    if IsAccountable(request, node, kind) {
      var item :| item in request.evidence && IsEvidenceFor(item, node, kind);
      SoleCompleteItem(request, node, kind, item);
    }
  }

  /** The pair of a related node in scope was not reported, so its operation passed. */
  lemma PairIsEstablished(request: VerificationRequest, isRfc3339: string -> bool, node: CertificateNode)
    requires WellFormed(request, isRfc3339) && NothingReported(request)
    requires InScope(request, node) && node.bindingDesign.RelatedCertificate?
    ensures CertificateDesignState(node, request).Passed?
  {
    EvidenceIsThere(request, isRfc3339, node, PostQuantumEvidence);
    FirstNamed(request, node);
    var found := Find(request.evidence, NamesCertificate(node.id));
    var pair := NamedPairOfNode(request, isRfc3339, node, found.value);
    UnreportedPair(request, node, pair);
  }

  lemma UnreportedPair(request: VerificationRequest, node: CertificateNode, pair: PairedAuthentication)
    requires NothingReported(request) && InScope(request, node) && node.bindingDesign.RelatedCertificate?
    requires FirstNamedPair(node, request) == Some(pair)
    requires pair in request.pairedAuthentications && pair.classicalCertificateId == node.id
    ensures CertificateDesignState(node, request).Passed?
  {
    assert !IsOpenPair(request, pair);
  }

  lemma DesignByBinding(request: VerificationRequest, isRfc3339: string -> bool, node: CertificateNode)
    requires WellFormed(request, isRfc3339) && NothingReported(request) && InScope(request, node)
    ensures CertificateDesignState(node, request).Passed? <==> BindsPostQuantum(node)
    ensures CertificateDesignState(node, request).Failed? <==> !BindsPostQuantum(node)
  {
    if node.bindingDesign.RelatedCertificate? { PairIsEstablished(request, isRfc3339, node); }
  }

  lemma NodeRefutedByAccount(request: VerificationRequest, isRfc3339: string -> bool, node: CertificateNode)
    requires WellFormed(request, isRfc3339) && NothingReported(request) && InScope(request, node)
    ensures NodeRefuted(request, node) <==>
            !BindsPostQuantum(node) || exists kind | Needs(node, kind) :: HasMisplaced(request, node, kind)
  {
    DesignByBinding(request, isRfc3339, node);
    DesignFailsExact(request, isRfc3339, node);
    forall kind | Needs(node, kind)
      ensures EvidenceRefuted(request, node, kind) <==> HasMisplaced(request, node, kind)
    {
      RefutedIsMisplaced(request, isRfc3339, node, kind);
    }
  }

  lemma NodeAcceptedByAccount(request: VerificationRequest, isRfc3339: string -> bool, node: CertificateNode)
    requires WellFormed(request, isRfc3339) && NothingReported(request) && InScope(request, node)
    ensures NodeAccepted(request, node) <==>
            && !IsUnknown(node)
            && BindsPostQuantum(node)
            && forall kind | Needs(node, kind) :: IsAccountable(request, node, kind)
  {
    DesignByBinding(request, isRfc3339, node);
    DesignExact(request, isRfc3339, node);
    forall kind | Needs(node, kind)
      ensures HasOneCompleteItem(request, node, kind) <==> IsAccountable(request, node, kind)
    {
      CompleteIsAccountable(request, isRfc3339, node, kind);
    }
  }

  // ----- the verdicts -----

  /** What still rejects a request, for each policy, when nothing is listed. */
  ghost predicate UnlistedGrounds(request: VerificationRequest) {
    match request.policy
    case P2RequiredHybrid =>
      || StackRefuted(request)
      || exists node | InScope(request, node) ::
           !BindsPostQuantum(node) || exists kind | Needs(node, kind) :: HasMisplaced(request, node, kind)
    case P3Continuity => false
    case _ =>
      || !RequiresClassicalInScope(request)
      || StackRefuted(request)
      || exists node | InScope(request, node) && Needs(node, ClassicalEvidence) ::
           HasMisplaced(request, node, ClassicalEvidence)
  }

  /** Nothing stands in the way of a hybrid verdict when nothing is listed. */
  ghost predicate HybridByAccount(request: VerificationRequest) {
    && StackAccepted(request)
    && forall node | InScope(request, node) ::
         && !IsUnknown(node)
         && BindsPostQuantum(node)
         && forall kind | Needs(node, kind) :: IsAccountable(request, node, kind)
  }

  /** The same for the classical claim set. */
  ghost predicate ClassicalByAccount(request: VerificationRequest) {
    && StackAcceptedAtTime(request)
    && RequiresClassicalInScope(request)
    && forall node | InScope(request, node) ::
         && !IsUnknown(node)
         && (Needs(node, ClassicalEvidence) ==> IsAccountable(request, node, ClassicalEvidence))
  }

  lemma RequiredGroundsByAccount(request: VerificationRequest, isRfc3339: string -> bool)
    requires WellFormed(request, isRfc3339) && NothingReported(request)
    ensures (exists node | InScope(request, node) :: NodeRefuted(request, node)) <==>
            exists node | InScope(request, node) ::
              !BindsPostQuantum(node) || exists kind | Needs(node, kind) :: HasMisplaced(request, node, kind)
  {
    forall node | InScope(request, node)
      ensures NodeRefuted(request, node) <==>
              !BindsPostQuantum(node) || exists kind | Needs(node, kind) :: HasMisplaced(request, node, kind)
    {
      NodeRefutedByAccount(request, isRfc3339, node);
    }
  }

  lemma ClassicalGroundsByAccount(request: VerificationRequest, isRfc3339: string -> bool)
    requires WellFormed(request, isRfc3339) && NothingReported(request)
    ensures (exists node | InScope(request, node) && Needs(node, ClassicalEvidence) ::
               EvidenceRefuted(request, node, ClassicalEvidence))
            <==>
            exists node | InScope(request, node) && Needs(node, ClassicalEvidence) ::
              HasMisplaced(request, node, ClassicalEvidence)
  {
    forall node | InScope(request, node) && Needs(node, ClassicalEvidence)
      ensures EvidenceRefuted(request, node, ClassicalEvidence) <==> HasMisplaced(request, node, ClassicalEvidence)
    {
      RefutedIsMisplaced(request, isRfc3339, node, ClassicalEvidence);
    }
  }

  lemma GroundsByAccount(request: VerificationRequest, isRfc3339: string -> bool)
    requires WellFormed(request, isRfc3339) && NothingReported(request)
    ensures RejectionGrounds(request) <==> UnlistedGrounds(request)
  {
    match request.policy
    case P2RequiredHybrid => RequiredGroundsByAccount(request, isRfc3339);
    case P3Continuity =>
    case _ => ClassicalGroundsByAccount(request, isRfc3339);
  }

  lemma HybridAcceptedByAccount(request: VerificationRequest, isRfc3339: string -> bool)
    requires WellFormed(request, isRfc3339) && NothingReported(request)
    ensures HybridAccepted(request) <==> HybridByAccount(request)
  {
    forall node | InScope(request, node)
      ensures NodeAccepted(request, node) <==>
              && !IsUnknown(node)
              && BindsPostQuantum(node)
              && forall kind | Needs(node, kind) :: IsAccountable(request, node, kind)
    {
      NodeAcceptedByAccount(request, isRfc3339, node);
    }
  }

  lemma ClassicalAcceptedByAccount(request: VerificationRequest, isRfc3339: string -> bool)
    requires WellFormed(request, isRfc3339) && NothingReported(request)
    ensures ClassicalAccepted(request) <==> ClassicalByAccount(request)
  {
    forall node | InScope(request, node) && Needs(node, ClassicalEvidence)
      ensures HasOneCompleteItem(request, node, ClassicalEvidence) <==>
              IsAccountable(request, node, ClassicalEvidence)
    {
      CompleteIsAccountable(request, isRfc3339, node, ClassicalEvidence);
    }
  }

  /** The result repeats what was asked and observed, and lists for a supported request exactly what is reported. */
  lemma ResultExact(request: VerificationRequest, isRfc3339: string -> bool)
    requires Evaluation(request, isRfc3339).Ok?
    ensures var r := Evaluation(request, isRfc3339).value;
            && r.apiVersion == "hybrid-x509-evidence/v9"
            && r.policy == request.policy && r.pathScope == request.pathScope
            && r.validationTime == request.validationTime
            && r.previousAuthentication == request.previousAuthentication
            && r.revocationPolicy == request.revocationPolicy
            && r.stack == request.stack && r.stackVerdict == request.stack.verdict
            && r.expectedTrustAnchor == request.expectedTrustAnchor
            && r.certificatePath == request.certificatePath
            && r.pairedAuthentications == request.pairedAuthentications
            && r.evaluatedEvidence == request.evidence
            && (forall entry :: entry in r.failedChecks <==> IsSupported(request) && IsReported(request, entry))
            && (!IsSupported(request) ==> !r.classicalOnlyFallback && !r.lifecycleDesynchronization)
  {
    SupportedExact(request);
    forall entry ensures entry in AllFailures(request) <==> IsReported(request, entry) {
      EntriesExact(request, entry);
    }
  }

  /** A supported request was accepted and nothing was listed for it. */
  ghost predicate ListIsEmpty(request: VerificationRequest, isRfc3339: string -> bool) {
    && IsSupported(request)
    && Evaluation(request, isRfc3339).Ok?
    && Evaluation(request, isRfc3339).value.failedChecks == []
  }

  lemma ListOfSupported(request: VerificationRequest, isRfc3339: string -> bool)
    ensures ListIsEmpty(request, isRfc3339) ==> WellFormed(request, isRfc3339) && NothingReported(request)
  {
    if ListIsEmpty(request, isRfc3339) {
      ValidationExact(request, isRfc3339);
      SupportedExact(request);
      EmptyListExact(request);
    }
  }

  /** With nothing listed, a supported request is rejected, hybrid or classical exactly for these reasons. */
  lemma EmptyListVerdictExact(request: VerificationRequest, isRfc3339: string -> bool)
    ensures ListIsEmpty(request, isRfc3339) ==>
              var verdict := Evaluation(request, isRfc3339).value.policyVerdict;
              && (verdict.Reject? <==> UnlistedGrounds(request))
              && (verdict.HybridClaimSetSatisfied? <==>
                    && HybridByAccount(request)
                    && (request.policy.P2RequiredHybrid?
                        || (request.policy.P1OptionalHybrid? && RequiresClassicalInScope(request))))
              && (verdict.ClassicalClaimSetSatisfied? <==>
                    && ClassicalByAccount(request)
                    && (request.policy.P0Classical?
                        || (request.policy.P1OptionalHybrid? && !HybridByAccount(request))))
  {
    ListOfSupported(request, isRfc3339);
    if ListIsEmpty(request, isRfc3339) {
      RejectVerdictExact(request, isRfc3339);
      GroundsByAccount(request, isRfc3339);
      HybridVerdictExact(request, isRfc3339);
      HybridAcceptedByAccount(request, isRfc3339);
      ClassicalVerdictExact(request, isRfc3339);
      ClassicalAcceptedByAccount(request, isRfc3339);
    }
  }
}
