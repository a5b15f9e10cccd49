/** What a verdict of the oracle establishes about the request as a whole. */
module HybridAcceptance {
  import opened Wrappers
  import opened Sequences
  import opened Model
  import opened Terms
  import opened RequestValidation
  import opened WellFormedness
  import opened Aggregation
  import opened Oracle

  // ----- the P2 cascade is a minimum over every observation it uses -----

  /** The node's evidence of that kind, when the node needs it, shows s. */
  ghost predicate NodeShows(request: VerificationRequest, node: CertificateNode, kind: EvidenceKind,
                            s: AggregateState)
  {
    Needs(node, kind) && CertificateShows(node, ScopedItems(request, kind), request.revocationPolicy.mode, s)
  }

  /** The design of the node, or some evidence it needs, is in state s. */
  ghost predicate NodeContributes(request: VerificationRequest, node: CertificateNode, s: AggregateState) {
    || CertificateDesignState(node, request) == s
    || NodeShows(request, node, ClassicalEvidence, s)
    || NodeShows(request, node, PostQuantumEvidence, s)
  }

  /** Some observation a hybrid verdict needs is in state s. */
  ghost predicate RequestShows(request: VerificationRequest, s: AggregateState)
    requires !request.stack.verdict.UnsupportedStack?
  {
    || StackState(request) == s
    || AuthenticationProfileState(request.stack.validationProfile) == s
    || SelectedPathState(request) == s
    || exists node | node in ScopedCertificates(request) :: NodeContributes(request, node, s)
  }

  lemma KindShows(request: VerificationRequest, kind: EvidenceKind, s: AggregateState)
    ensures EvidenceShows(RequiredCertificates(request, kind), ScopedItems(request, kind),
                          request.revocationPolicy.mode, s)
            <==> exists node | node in ScopedCertificates(request) :: NodeShows(request, node, kind, s)
  {
    var required, scoped := RequiredCertificates(request, kind), ScopedCertificates(request);
    var items, mode := ScopedItems(request, kind), request.revocationPolicy.mode;
    forall node ensures node in required && CertificateShows(node, items, mode, s) <==>
                        node in scoped && NodeShows(request, node, kind, s) {
      assert node in required <==> node in scoped && Requiring(kind)(node);
      assert node.Requires(kind) <==> Needs(node, kind);
    }
  }

  lemma WorstOfAll(request: VerificationRequest)
    requires !request.stack.verdict.UnsupportedStack?
    ensures var a := AggregatesOf(request);
            && (RequestShows(request, Failed) <==>
                  a.design.Failed? || a.classical.Failed? || a.postQuantum.Failed? || a.stack.Failed?)
            && (!RequestShows(request, Failed) && !RequestShows(request, Undetermined) <==> a.HybridSucceeded())
  {
    KindShows(request, ClassicalEvidence, Failed);
    KindShows(request, ClassicalEvidence, Undetermined);
    KindShows(request, PostQuantumEvidence, Failed);
    KindShows(request, PostQuantumEvidence, Undetermined);
  }

  /** The required-hybrid verdict is the minimum of everything observed, in the order reject, indeterminate, hybrid. */
  lemma RequiredHybridIsMinimum(request: VerificationRequest)
    requires request.policy.P2RequiredHybrid? && !IsUnsupported(request)
    ensures Assessment(request).policyVerdict ==
            if RequestShows(request, Failed) then Reject
            else if RequestShows(request, Undetermined) then IndeterminateVerdict
            else HybridClaimSetSatisfied
  {
    WorstOfAll(request);
    MinimumDecision(AggregatesOf(request), RequestShows(request, Failed), RequestShows(request, Undetermined));
  }

  lemma MinimumDecision(a: Aggregates, fails: bool, open: bool)
    requires !a.profile.Failed? && !a.path.Failed?
    requires fails <==> a.design.Failed? || a.classical.Failed? || a.postQuantum.Failed? || a.stack.Failed?
    requires !fails && !open <==> a.HybridSucceeded()
    ensures Decide(P2RequiredHybrid, a).verdict ==
            if fails then Reject else if open then IndeterminateVerdict else HybridClaimSetSatisfied
  {
  }

  // ----- exactly which requests are accepted as hybrid -----

  /** The slot passed with direct confidence, or was legitimately not applicable. */
  ghost predicate EstablishedSlot(item: Evidence, slot: EvidenceSlot, mode: RevocationPolicyMode) {
    && IsDirect(item.Check(slot).confidence)
    && (item.Check(slot).state.Pass?
        || (item.Check(slot).state.NotApplicable? && MayBeInapplicable(slot, mode)))
  }

  /** Every check holds, and all three hashes are present and are those the path or the pair names. */
  ghost predicate Complete(request: VerificationRequest, node: CertificateNode, item: Evidence) {
    && (forall slot :: EstablishedSlot(item, slot, request.revocationPolicy.mode))
    && node.derSha256.Some? && item.certificateDerSha256 == node.derSha256
    && node.issuerEdgeSha256.Some? && item.issuerEdgeSha256 == node.issuerEdgeSha256
    && if node.bindingDesign.RelatedCertificate? && item.kind.PostQuantumEvidence? then
         exists pair | pair in request.pairedAuthentications ::
           && pair.classicalCertificateId == node.id
           && item.authenticationOperationId == Some(pair.operationId)
           && item.evidenceArtifactDerSha256 == Some(pair.postQuantumCertificateDerSha256)
       else item.evidenceArtifactDerSha256 == node.derSha256
  }

  ghost predicate IsEvidenceFor(item: Evidence, node: CertificateNode, kind: EvidenceKind) {
    item.certificateId == node.id && item.kind == kind
  }

  /** There is exactly one item of the kind for the node, and it is complete. */
  ghost predicate HasOneCompleteItem(request: VerificationRequest, node: CertificateNode, kind: EvidenceKind) {
    exists i :: 0 <= i < |request.evidence|
                && IsEvidenceFor(request.evidence[i], node, kind)
                && Complete(request, node, request.evidence[i])
                && forall j :: 0 <= j < |request.evidence| && IsEvidenceFor(request.evidence[j], node, kind) ==> j == i
  }

  /** One operation, named by all evidence for the node, authenticated both certificates. */
  ghost predicate IsPaired(request: VerificationRequest, node: CertificateNode) {
    && node.bindingDesign.RelatedCertificate?
    && exists pair | pair in request.pairedAuthentications ::
         && pair.classicalCertificateId == node.id
         && Established(pair.sameAuthenticationOperation)
         && (exists item | item in request.evidence :: item.certificateId == node.id)
         && forall item | item in request.evidence && item.certificateId == node.id ::
              item.authenticationOperationId == Some(pair.operationId)
  }

  ghost predicate NodeAccepted(request: VerificationRequest, node: CertificateNode) {
    && !IsUnknown(node)
    && (IsHybridByDesign(node) || IsPaired(request, node))
    && (Needs(node, PostQuantumEvidence) ==> HasOneCompleteItem(request, node, PostQuantumEvidence))
    && (Needs(node, ClassicalEvidence) ==> HasOneCompleteItem(request, node, ClassicalEvidence))
  }

  /** The stack accepted for authentication, at the time the request asks about. */
  ghost predicate StackAcceptedAtTime(request: VerificationRequest) {
    && request.stack.verdict.Accepted?
    && request.stack.appliedValidationTime == request.validationTime
    && Established(request.stack.validationTime)
    && !request.stack.validationProfile.EvidenceSignature?
  }

  ghost predicate StackAccepted(request: VerificationRequest) {
    && StackAcceptedAtTime(request)
    && request.stack.selectedPathSource.AdapterSelected?
    && forall node | node in request.certificatePath :: node.issuerEdgeSha256.Some?
  }

  ghost predicate HybridAccepted(request: VerificationRequest) {
    StackAccepted(request) && forall node | InScope(request, node) :: NodeAccepted(request, node)
  }

  lemma ScopedNodes(request: VerificationRequest)
    ensures forall node :: node in ScopedCertificates(request) <==> InScope(request, node)
  {
    assert forall node :: node in ScopedCertificates(request) <==>
                          node in request.certificatePath && NodeInScope(request.pathScope)(node);
  }

  lemma ItemsCovered(request: VerificationRequest, kind: EvidenceKind)
    ensures forall item :: item in ScopedItems(request, kind) <==>
                           item in request.evidence && Covers(request.pathScope, item.position) && item.kind == kind
  {
    assert forall item :: item in ScopedItems(request, kind) <==>
                          item in request.evidence && ItemInScope(request.pathScope)(item) && OfKind(kind)(item);
  }

  /** For a node in scope, the filtered items of a kind are all the items of that kind for it. */
  lemma ItemsOfNode(request: VerificationRequest, isRfc3339: string -> bool, node: CertificateNode, kind: EvidenceKind)
    requires WellFormed(request, isRfc3339) && InScope(request, node)
    ensures forall item :: item in ScopedItems(request, kind) && item.certificateId == node.id <==>
                           item in request.evidence && IsEvidenceFor(item, node, kind)
  {
    forall item
      ensures item in ScopedItems(request, kind) && item.certificateId == node.id <==>
              item in request.evidence && IsEvidenceFor(item, node, kind)
    {
      assert item in ScopedItems(request, kind) <==>
             item in request.evidence && ItemInScope(request.pathScope)(item) && OfKind(kind)(item);
      if item in request.evidence && item.certificateId == node.id {
        NodeIsBound(request, isRfc3339, node, item);
      }
    }
  }

  lemma SlotsExact(item: Evidence, mode: RevocationPolicyMode)
    ensures forall slot :: EstablishedSlot(item, slot, mode) <==> SlotState(item, slot, mode) == Passed
  {
  }

  lemma ShowsNothingElse(node: CertificateNode, item: Evidence, mode: RevocationPolicyMode)
    ensures !ItemShows(node, item, mode, Failed) && !ItemShows(node, item, mode, Undetermined) <==>
            EvidenceBindingState(node, item).Passed? && forall slot :: SlotState(item, slot, mode) == Passed
  {
  }

  lemma CompleteByBinding(request: VerificationRequest, node: CertificateNode, item: Evidence)
    requires Bound(request, node, item) && !node.position.TrustAnchorPosition?
    ensures Complete(request, node, item) <==>
            && EvidenceBindingState(node, item).Passed?
            && forall slot :: EstablishedSlot(item, slot, request.revocationPolicy.mode)
  {
  }

  lemma CompleteExact(request: VerificationRequest, isRfc3339: string -> bool, node: CertificateNode, item: Evidence)
    requires WellFormed(request, isRfc3339)
    requires node in request.certificatePath && item in request.evidence && item.certificateId == node.id
    ensures Complete(request, node, item) <==>
            && !ItemShows(node, item, request.revocationPolicy.mode, Failed)
            && !ItemShows(node, item, request.revocationPolicy.mode, Undetermined)
  {
    NodeIsBound(request, isRfc3339, node, item);
    PathShape(request, isRfc3339);
    CompleteByBinding(request, node, item);
    SlotsExact(item, request.revocationPolicy.mode);
    ShowsNothingElse(node, item, request.revocationPolicy.mode);
  }

  lemma SoleItem(request: VerificationRequest, node: CertificateNode, kind: EvidenceKind, i: nat, j: nat)
    requires Distinct(request.evidence, EvidenceKey)
    requires i < |request.evidence| && j < |request.evidence|
    requires IsEvidenceFor(request.evidence[i], node, kind) && IsEvidenceFor(request.evidence[j], node, kind)
    ensures i == j
  {
    assert EvidenceKey(request.evidence[i]) == EvidenceKey(request.evidence[j]);
  }

  lemma SoleCompleteItem(request: VerificationRequest, node: CertificateNode, kind: EvidenceKind, item: Evidence)
    requires Distinct(request.evidence, EvidenceKey)
    requires item in request.evidence && IsEvidenceFor(item, node, kind) && Complete(request, node, item)
    ensures HasOneCompleteItem(request, node, kind)
  {
    var i :| 0 <= i < |request.evidence| && request.evidence[i] == item;
    forall j | 0 <= j < |request.evidence| && IsEvidenceFor(request.evidence[j], node, kind) ensures j == i {
      SoleItem(request, node, kind, i, j);
    }
  }

  lemma OnlyCompleteItems(request: VerificationRequest, node: CertificateNode, kind: EvidenceKind)
    requires HasOneCompleteItem(request, node, kind)
    ensures exists item | item in request.evidence :: IsEvidenceFor(item, node, kind)
    ensures forall item | item in request.evidence && IsEvidenceFor(item, node, kind) :: Complete(request, node, item)
  {
  }

  /** What the items of one node show, given which items those are and when each is complete. */
  lemma NodeEvidenceFromItems(request: VerificationRequest, node: CertificateNode, kind: EvidenceKind)
    requires Distinct(request.evidence, EvidenceKey)
    requires forall item :: item in ScopedItems(request, kind) && item.certificateId == node.id <==>
                            item in request.evidence && IsEvidenceFor(item, node, kind)
    requires forall item | item in request.evidence && item.certificateId == node.id ::
               (Complete(request, node, item) <==>
                && !ItemShows(node, item, request.revocationPolicy.mode, Failed)
                && !ItemShows(node, item, request.revocationPolicy.mode, Undetermined))
    ensures var items, mode := ScopedItems(request, kind), request.revocationPolicy.mode;
            HasOneCompleteItem(request, node, kind) <==>
            !CertificateShows(node, items, mode, Failed) && !CertificateShows(node, items, mode, Undetermined)
  {
    var items, mode := ScopedItems(request, kind), request.revocationPolicy.mode;
    if !CertificateShows(node, items, mode, Failed) && !CertificateShows(node, items, mode, Undetermined) {
      var item :| item in items && item.certificateId == node.id;
      SoleCompleteItem(request, node, kind, item);
    }
    if HasOneCompleteItem(request, node, kind) {
      OnlyCompleteItems(request, node, kind);
    }
  }

  lemma NodeEvidenceExact(request: VerificationRequest, isRfc3339: string -> bool, node: CertificateNode,
                          kind: EvidenceKind)
    requires WellFormed(request, isRfc3339) && InScope(request, node)
    ensures var items, mode := ScopedItems(request, kind), request.revocationPolicy.mode;
            HasOneCompleteItem(request, node, kind) <==>
            !CertificateShows(node, items, mode, Failed) && !CertificateShows(node, items, mode, Undetermined)
  {
    ItemsOfNode(request, isRfc3339, node, kind);
    forall item | item in request.evidence && item.certificateId == node.id
      ensures Complete(request, node, item) <==>
              && !ItemShows(node, item, request.revocationPolicy.mode, Failed)
              && !ItemShows(node, item, request.revocationPolicy.mode, Undetermined)
    {
      CompleteExact(request, isRfc3339, node, item);
    }
    NodeEvidenceFromItems(request, node, kind);
  }

  lemma PairOfBinding(request: VerificationRequest, node: CertificateNode, item: Evidence)
    returns (pair: PairedAuthentication)
    requires Bound(request, node, item) && node.bindingDesign.RelatedCertificate?
    requires Distinct(request.pairedAuthentications, OperationId)
    ensures NamedPair(request, item) == Some(pair) && pair in request.pairedAuthentications
    ensures pair.classicalCertificateId == node.id && item.authenticationOperationId == Some(pair.operationId)
    ensures forall other | other in request.pairedAuthentications && other.operationId == pair.operationId ::
              other == pair
  {
    pair :| pair in request.pairedAuthentications && item.authenticationOperationId == Some(pair.operationId)
            && pair.classicalCertificateId == node.id;
    SamePair(request.pairedAuthentications, pair, NamedPair(request, item).value);
    forall other | other in request.pairedAuthentications && other.operationId == pair.operationId
      ensures other == pair
    {
      SamePair(request.pairedAuthentications, other, pair);
    }
  }

  /** Every item of a related node names the same declared pair, whichever item is found first. */
  lemma NamedPairOfNode(request: VerificationRequest, isRfc3339: string -> bool, node: CertificateNode, item: Evidence)
    returns (pair: PairedAuthentication)
    requires WellFormed(request, isRfc3339) && node in request.certificatePath && node.bindingDesign.RelatedCertificate?
    requires item in request.evidence && item.certificateId == node.id
    ensures NamedPair(request, item) == Some(pair) && pair in request.pairedAuthentications
    ensures pair.classicalCertificateId == node.id && item.authenticationOperationId == Some(pair.operationId)
    ensures forall other | other in request.evidence && other.certificateId == node.id ::
              other.authenticationOperationId == Some(pair.operationId)
    ensures forall other | other in request.pairedAuthentications && other.operationId == pair.operationId ::
              other == pair
  {
    NodeIsBound(request, isRfc3339, node, item);
    pair := PairOfBinding(request, node, item);
    assert OneOperationEach(request.evidence);
  }

  lemma FirstNamed(request: VerificationRequest, node: CertificateNode)
    ensures var found := Find(request.evidence, NamesCertificate(node.id));
            && (found.None? <==> forall item | item in request.evidence :: item.certificateId != node.id)
            && (found.Some? ==> found.value in request.evidence && found.value.certificateId == node.id)
  {
    var found := Find(request.evidence, NamesCertificate(node.id));
    if found.None? {
      assert forall item | item in request.evidence :: !NamesCertificate(node.id)(item);
    } else {
      assert NamesCertificate(node.id)(found.value);
    }
  }

  lemma DesignExact(request: VerificationRequest, isRfc3339: string -> bool, node: CertificateNode)
    requires WellFormed(request, isRfc3339) && node in request.certificatePath
    ensures CertificateDesignState(node, request).Passed? <==> IsHybridByDesign(node) || IsPaired(request, node)
  {
    FirstNamed(request, node);
    var found := Find(request.evidence, NamesCertificate(node.id));
    if !IsHybridByDesign(node) && node.bindingDesign.RelatedCertificate? && found.Some? {
      var pair := NamedPairOfNode(request, isRfc3339, node, found.value);
      PairedByName(request, node, found.value, pair);
      EstablishedDesign(request, node, pair);
    } else {
      UnpairedDesignPasses(request, node);
    }
  }

  lemma EstablishedDesign(request: VerificationRequest, node: CertificateNode, pair: PairedAuthentication)
    requires !IsHybridByDesign(node) && node.bindingDesign.RelatedCertificate?
    requires FirstNamedPair(node, request) == Some(pair)
    ensures CertificateDesignState(node, request).Passed? <==> Established(pair.sameAuthenticationOperation)
  {
  }

  lemma UnpairedDesignPasses(request: VerificationRequest, node: CertificateNode)
    requires IsHybridByDesign(node) || !node.bindingDesign.RelatedCertificate?
             || Find(request.evidence, NamesCertificate(node.id)).None?
    ensures CertificateDesignState(node, request).Passed? <==> IsHybridByDesign(node) || IsPaired(request, node)
  {
    FirstNamed(request, node);
  }

  lemma PairedByName(request: VerificationRequest, node: CertificateNode, item: Evidence, pair: PairedAuthentication)
    requires node.bindingDesign.RelatedCertificate? && item in request.evidence && item.certificateId == node.id
    requires pair in request.pairedAuthentications && pair.classicalCertificateId == node.id
    requires forall other | other in request.evidence && other.certificateId == node.id ::
               other.authenticationOperationId == Some(pair.operationId)
    requires forall other | other in request.pairedAuthentications && other.operationId == pair.operationId ::
               other == pair
    ensures IsPaired(request, node) <==> Established(pair.sameAuthenticationOperation)
  {
  }

  /** The node contributes no state other than Passed. */
  ghost predicate NodePasses(request: VerificationRequest, node: CertificateNode) {
    !NodeContributes(request, node, Failed) && !NodeContributes(request, node, Undetermined)
  }

  lemma AcceptedByParts(request: VerificationRequest, node: CertificateNode)
    requires !IsUnknown(node)
    requires CertificateDesignState(node, request).Passed? <==> IsHybridByDesign(node) || IsPaired(request, node)
    requires forall kind | Needs(node, kind) ::
               (HasOneCompleteItem(request, node, kind) <==>
                !NodeShows(request, node, kind, Failed) && !NodeShows(request, node, kind, Undetermined))
    ensures NodeAccepted(request, node) <==> NodePasses(request, node)
  {
  }

  lemma NodeAcceptedExact(request: VerificationRequest, isRfc3339: string -> bool, node: CertificateNode)
    requires WellFormed(request, isRfc3339) && InScope(request, node) && !IsUnknown(node)
    ensures NodeAccepted(request, node) <==> NodePasses(request, node)
  {
    DesignExact(request, isRfc3339, node);
    NodeEvidenceExact(request, isRfc3339, node, ClassicalEvidence);
    NodeEvidenceExact(request, isRfc3339, node, PostQuantumEvidence);
    AcceptedByParts(request, node);
  }

  lemma StackAcceptedExact(request: VerificationRequest, isRfc3339: string -> bool)
    requires WellFormed(request, isRfc3339) && !request.stack.verdict.UnsupportedStack?
    ensures StackAccepted(request) <==>
            && StackState(request).Passed?
            && AuthenticationProfileState(request.stack.validationProfile).Passed?
            && SelectedPathState(request).Passed?
  {
    PathShape(request, isRfc3339);
    assert request.certificatePath[0] in request.certificatePath;
  }

  lemma SucceedsByNodes(request: VerificationRequest)
    requires !request.stack.verdict.UnsupportedStack?
    ensures AggregatesOf(request).HybridSucceeded() <==>
            && StackState(request).Passed?
            && AuthenticationProfileState(request.stack.validationProfile).Passed?
            && SelectedPathState(request).Passed?
            && forall node | InScope(request, node) :: NodePasses(request, node)
  {
    ScopedNodes(request);
    WorstOfAll(request);
  }

  lemma HybridSucceededExact(request: VerificationRequest, isRfc3339: string -> bool)
    requires WellFormed(request, isRfc3339) && !IsUnsupported(request)
    ensures AggregatesOf(request).HybridSucceeded() <==> HybridAccepted(request)
  {
    ScopedNodes(request);
    SucceedsByNodes(request);
    StackAcceptedExact(request, isRfc3339);
    forall node | InScope(request, node) ensures NodeAccepted(request, node) <==> NodePasses(request, node) {
      NodeAcceptedExact(request, isRfc3339, node);
    }
  }

  ghost predicate RequiresClassicalInScope(request: VerificationRequest) {
    exists node | InScope(request, node) :: Needs(node, ClassicalEvidence)
  }

  lemma ClassicalRequirement(request: VerificationRequest)
    ensures RequiredCertificates(request, ClassicalEvidence) != [] <==> RequiresClassicalInScope(request)
  {
    ScopedNodes(request);
    var required := RequiredCertificates(request, ClassicalEvidence);
    assert forall node :: node in required <==>
                          node in ScopedCertificates(request) && Requiring(ClassicalEvidence)(node);
    if required != [] { assert required[0] in required; }
  }

  lemma HybridDecision(policy: Policy, a: Aggregates)
    requires !a.profile.Failed? && !a.path.Failed?
    ensures Decide(policy, a).verdict.HybridClaimSetSatisfied? <==>
            a.HybridSucceeded() && (policy.P2RequiredHybrid? || (policy.P1OptionalHybrid? && a.requiresClassical))
  {
  }

  lemma HybridVerdictByPolicy(request: VerificationRequest)
    ensures Assessment(request).policyVerdict.HybridClaimSetSatisfied? <==>
            && !IsUnsupported(request)
            && AggregatesOf(request).HybridSucceeded()
            && (request.policy.P2RequiredHybrid?
                || (request.policy.P1OptionalHybrid? && RequiresClassicalInScope(request)))
  {
    if !IsUnsupported(request) {
      var a := AggregatesOf(request);
      HybridDecision(request.policy, a);
      assert a.requiresClassical <==> RequiresClassicalInScope(request) by { ClassicalRequirement(request); }
    }
  }

  lemma AcceptedIsSupported(request: VerificationRequest)
    requires HybridAccepted(request)
    ensures !IsUnsupported(request)
  {
    ScopedNodes(request);
  }

  lemma HybridAssessmentExact(request: VerificationRequest, isRfc3339: string -> bool)
    requires WellFormed(request, isRfc3339)
    ensures Assessment(request).policyVerdict.HybridClaimSetSatisfied? <==>
            && HybridAccepted(request)
            && (request.policy.P2RequiredHybrid?
                || (request.policy.P1OptionalHybrid? && RequiresClassicalInScope(request)))
  {
    HybridVerdictByPolicy(request);
    if HybridAccepted(request) { AcceptedIsSupported(request); }
    if !IsUnsupported(request) { HybridSucceededExact(request, isRfc3339); }
  }

  /** The evaluation answers hybrid exactly for well-formed requests whose every observation is established. */
  lemma HybridVerdictExact(request: VerificationRequest, isRfc3339: string -> bool)
    ensures (Evaluation(request, isRfc3339).Ok?
             && Evaluation(request, isRfc3339).value.policyVerdict.HybridClaimSetSatisfied?)
            <==>
            && WellFormed(request, isRfc3339)
            && HybridAccepted(request)
            && (request.policy.P2RequiredHybrid?
                || (request.policy.P1OptionalHybrid? && RequiresClassicalInScope(request)))
  {
    ValidationExact(request, isRfc3339);
    if WellFormed(request, isRfc3339) { HybridAssessmentExact(request, isRfc3339); }
  }

  /** A hybrid verdict needs post-quantum evidence everywhere, and classical evidence but for one related case. */
  lemma EvidenceOfAcceptedNodes(request: VerificationRequest, node: CertificateNode)
    requires HybridAccepted(request) && InScope(request, node)
    ensures HasOneCompleteItem(request, node, PostQuantumEvidence)
    ensures HasOneCompleteItem(request, node, ClassicalEvidence)
            || (node.bindingDesign.RelatedCertificate? && node.certificateSignatureScheme.PostQuantum?)
  {
    assert NodeAccepted(request, node);
  }

  // ----- exactly which requests satisfy the classical claim set -----

  /** The stack accepted at the request's time and some in-scope node has, and every one that needs has, its item. */
  ghost predicate ClassicalAccepted(request: VerificationRequest) {
    && StackAcceptedAtTime(request)
    && RequiresClassicalInScope(request)
    && (forall node | InScope(request, node) :: !IsUnknown(node))
    && forall node | InScope(request, node) && Needs(node, ClassicalEvidence) ::
         HasOneCompleteItem(request, node, ClassicalEvidence)
  }

  lemma KindPassedExact(request: VerificationRequest, isRfc3339: string -> bool, kind: EvidenceKind)
    requires WellFormed(request, isRfc3339)
    ensures KindState(request, kind).Passed? <==>
            forall node | InScope(request, node) && Needs(node, kind) :: HasOneCompleteItem(request, node, kind)
  {
    ScopedNodes(request);
    KindShows(request, kind, Failed);
    KindShows(request, kind, Undetermined);
    forall node | InScope(request, node) && Needs(node, kind)
      ensures HasOneCompleteItem(request, node, kind) <==>
              !NodeShows(request, node, kind, Failed) && !NodeShows(request, node, kind, Undetermined)
    {
      NodeEvidenceExact(request, isRfc3339, node, kind);
    }
  }

  lemma ClassicalDecision(policy: Policy, a: Aggregates)
    requires !a.profile.Failed? && !a.path.Failed?
    ensures Decide(policy, a).verdict.ClassicalClaimSetSatisfied? <==>
            a.ClassicalSucceeded() && (policy.P0Classical? || (policy.P1OptionalHybrid? && !a.HybridSucceeded()))
  {
  }

  lemma ClassicalSucceededExact(request: VerificationRequest, isRfc3339: string -> bool)
    requires WellFormed(request, isRfc3339) && !IsUnsupported(request)
    ensures AggregatesOf(request).ClassicalSucceeded() <==> ClassicalAccepted(request)
  {
    KindPassedExact(request, isRfc3339, ClassicalEvidence);
    ClassicalRequirement(request);
    SupportedNodes(request);
    AcceptedAtTimeExact(request);
  }

  lemma SupportedNodes(request: VerificationRequest)
    requires !IsUnsupported(request)
    ensures forall node | InScope(request, node) :: !IsUnknown(node)
  {
    ScopedNodes(request);
  }

  lemma AcceptedAtTimeExact(request: VerificationRequest)
    requires !request.stack.verdict.UnsupportedStack?
    ensures StackAcceptedAtTime(request) <==>
            StackState(request).Passed? && AuthenticationProfileState(request.stack.validationProfile).Passed?
  {
  }

  lemma ClassicalAcceptedIsSupported(request: VerificationRequest)
    requires ClassicalAccepted(request)
    ensures !IsUnsupported(request)
  {
    ScopedNodes(request);
  }

  lemma ClassicalAssessmentExact(request: VerificationRequest, isRfc3339: string -> bool)
    requires WellFormed(request, isRfc3339)
    ensures Assessment(request).policyVerdict.ClassicalClaimSetSatisfied? <==>
            && ClassicalAccepted(request)
            && (request.policy.P0Classical? || (request.policy.P1OptionalHybrid? && !HybridAccepted(request)))
  {
    if ClassicalAccepted(request) { ClassicalAcceptedIsSupported(request); }
    if !IsUnsupported(request) {
      ClassicalDecision(request.policy, AggregatesOf(request));
      ClassicalSucceededExact(request, isRfc3339);
      HybridSucceededExact(request, isRfc3339);
    }
  }

  /** The classical claim set is satisfied exactly by these well-formed requests. */
  lemma ClassicalVerdictExact(request: VerificationRequest, isRfc3339: string -> bool)
    ensures (Evaluation(request, isRfc3339).Ok?
             && Evaluation(request, isRfc3339).value.policyVerdict.ClassicalClaimSetSatisfied?)
            <==>
            && WellFormed(request, isRfc3339)
            && ClassicalAccepted(request)
            && (request.policy.P0Classical? || (request.policy.P1OptionalHybrid? && !HybridAccepted(request)))
  {
    ValidationExact(request, isRfc3339);
    if WellFormed(request, isRfc3339) { ClassicalAssessmentExact(request, isRfc3339); }
  }

  lemma RejectionDecision(policy: Policy, a: Aggregates)
    requires !a.profile.Failed? && !a.path.Failed?
    ensures Decide(policy, a).verdict.Reject? <==>
            match policy
            case P0Classical => a.ClassicalFailed()
            case P1OptionalHybrid => a.ClassicalFailed()
            case P2RequiredHybrid => a.design.Failed? || a.classical.Failed? || a.postQuantum.Failed? || a.stack.Failed?
            case P3Continuity => false
  {
  }

  /**
   * The classical and optional policies reject for want of a requirement, or for a failure of the stack or of a
   * node.
   */
  lemma ClassicalRejectionExact(request: VerificationRequest)
    requires !IsUnsupported(request) && (request.policy.P0Classical? || request.policy.P1OptionalHybrid?)
    ensures Assessment(request).policyVerdict.Reject? <==>
            || !RequiresClassicalInScope(request)
            || StackState(request).Failed?
            || exists node | InScope(request, node) :: NodeShows(request, node, ClassicalEvidence, Failed)
  {
    RejectionDecision(request.policy, AggregatesOf(request));
    ClassicalRequirement(request);
    KindShows(request, ClassicalEvidence, Failed);
    ScopedNodes(request);
  }
}
