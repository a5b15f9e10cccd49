/** How the verdicts of the policies on one request constrain each other. */
module PolicyAgreement {
  import opened Model
  import opened Terms
  import opened Aggregation
  import opened Oracle
  import opened HybridAcceptance

  /** The requests agree on everything the aggregate states read. */
  predicate SameObservations(a: VerificationRequest, b: VerificationRequest) {
    && a.pathScope == b.pathScope
    && a.certificatePath == b.certificatePath
    && a.evidence == b.evidence
    && a.pairedAuthentications == b.pairedAuthentications
    && a.stack == b.stack
    && a.validationTime == b.validationTime
    && a.revocationPolicy.mode == b.revocationPolicy.mode
  }

  lemma DesignDecided(a: VerificationRequest, b: VerificationRequest)
    requires SameObservations(a, b)
    ensures DesignState(a) == DesignState(b)
  {
    forall node ensures CertificateDesignState(node, a) == CertificateDesignState(node, b) {
    }
  }

  lemma ObservationsDecide(a: VerificationRequest, b: VerificationRequest)
    requires SameObservations(a, b)
    ensures IsUnsupported(a) == IsUnsupported(b)
    ensures !a.stack.verdict.UnsupportedStack? ==> AggregatesOf(a) == AggregatesOf(b)
    ensures AllFailures(a) == AllFailures(b)
    ensures ScopedItems(a, PostQuantumEvidence) == ScopedItems(b, PostQuantumEvidence)
  {
    assert ScopedCertificates(a) == ScopedCertificates(b);
    if !a.stack.verdict.UnsupportedStack? {
      OtherAggregatesDecided(a, b);
      DesignDecided(a, b);
    }
  }

  lemma OtherAggregatesDecided(a: VerificationRequest, b: VerificationRequest)
    requires SameObservations(a, b) && !a.stack.verdict.UnsupportedStack?
    ensures var x, y := AggregatesOf(a), AggregatesOf(b);
            y == x.(design := y.design)
  {
    assert ScopedCertificates(a) == ScopedCertificates(b);
    assert KindState(a, ClassicalEvidence) == KindState(b, ClassicalEvidence);
    assert KindState(a, PostQuantumEvidence) == KindState(b, PostQuantumEvidence);
  }

  /** The assessment under a policy is that policy's decision on the shared aggregate states. */
  lemma AssessedUnder(request: VerificationRequest, policy: Policy)
    requires !IsUnsupported(request)
    ensures var r, a := Assessment(request.(policy := policy)), AggregatesOf(request);
            && r.policyVerdict == Decide(policy, a).verdict
            && r.classicalOnlyFallback == Fallback(policy, r.policyVerdict, a)
            && r.failedChecks == AllFailures(request)
  {
    ObservationsDecide(request, request.(policy := policy));
  }

  lemma HybridClaim(request: VerificationRequest)
    ensures EvaluatesHybridClaim(request) <==>
            exists node | InScope(request, node) :: Needs(node, PostQuantumEvidence)
  {
    ScopedNodes(request);
    var required := RequiredCertificates(request, PostQuantumEvidence);
    assert forall node :: node in required <==>
                          node in ScopedCertificates(request) && Requiring(PostQuantumEvidence)(node);
    if required != [] { assert required[0] in required; }
  }

  /** The relations between the three decisions, as facts about the cascade. */
  lemma DecisionsAgree(a: Aggregates)
    requires !a.profile.Failed? && !a.path.Failed?
    ensures var v0, v1, v2 :=
              Decide(P0Classical, a).verdict, Decide(P1OptionalHybrid, a).verdict, Decide(P2RequiredHybrid, a).verdict;
            && (v1.Reject? <==> v0.Reject?)
            && (v1.IndeterminateVerdict? <==> v0.IndeterminateVerdict?)
            && (v1.HybridClaimSetSatisfied? <==> v2.HybridClaimSetSatisfied? && a.requiresClassical)
            && (v0.ClassicalClaimSetSatisfied? <==> a.ClassicalSucceeded())
            && (v2.HybridClaimSetSatisfied? ==> a.postQuantum.Passed? && a.design.Passed?)
  {
  }

  lemma PoliciesAgree(request: VerificationRequest)
    requires !IsUnsupported(request)
    ensures var r0, r1, r2 := Assessment(request.(policy := P0Classical)),
                              Assessment(request.(policy := P1OptionalHybrid)),
                              Assessment(request.(policy := P2RequiredHybrid));
            && (r1.policyVerdict.Reject? <==> r0.policyVerdict.Reject?)
            && (r1.policyVerdict.IndeterminateVerdict? <==> r0.policyVerdict.IndeterminateVerdict?)
            && (r1.policyVerdict.HybridClaimSetSatisfied? <==>
                  r2.policyVerdict.HybridClaimSetSatisfied? && RequiresClassicalInScope(request))
            && (r2.classicalOnlyFallback <==>
                  && r0.policyVerdict.ClassicalClaimSetSatisfied?
                  && !(KindState(request, PostQuantumEvidence).Passed? && DesignState(request).Passed?))
            && (r1.classicalOnlyFallback <==>
                  && r1.policyVerdict.ClassicalClaimSetSatisfied?
                  && exists node | InScope(request, node) :: Needs(node, PostQuantumEvidence))
            && !r0.classicalOnlyFallback
            && r0.failedChecks == r1.failedChecks == r2.failedChecks
  {
    AssessedUnder(request, P0Classical);
    AssessedUnder(request, P1OptionalHybrid);
    AssessedUnder(request, P2RequiredHybrid);
    DecisionsAgree(AggregatesOf(request));
    ClassicalRequirement(request);
    HybridClaim(request);
  }

  /** Fallback is never reported beside a hybrid verdict, and lifecycle desynchronization only beside fallback. */
  lemma FallbackExcludesHybrid(request: VerificationRequest)
    ensures var r := Assessment(request);
            && !(r.classicalOnlyFallback && r.policyVerdict.HybridClaimSetSatisfied?)
            && (r.lifecycleDesynchronization ==> r.classicalOnlyFallback)
  {
    if !IsUnsupported(request) { DecisionsAgree(AggregatesOf(request)); }
  }

  /** Lifecycle desynchronization is fallback beside post-quantum evidence in scope that is out of date or revoked. */
  lemma LifecycleExact(request: VerificationRequest)
    ensures var r := Assessment(request);
            r.lifecycleDesynchronization <==>
            && r.classicalOnlyFallback
            && exists item | item in request.evidence ::
                 && Covers(request.pathScope, item.position)
                 && item.kind.PostQuantumEvidence?
                 && (item.validity.state.Fail? || item.revocation.state.Fail?)
  {
    ItemsCovered(request, PostQuantumEvidence);
  }

  /** The reason each policy gives for a verdict; only a rejection under required hybrid has two. */
  predicate Explains(reason: Reason, policy: Policy, verdict: PolicyVerdict) {
    match reason
    case UnsupportedInput => verdict.Unsupported?
    case ClassicalOrStackFailed => (policy.P0Classical? || policy.P1OptionalHybrid?) && verdict.Reject?
    case ClassicalPassedP0 => policy.P0Classical? && verdict.ClassicalClaimSetSatisfied?
    case ClassicalIncomplete => (policy.P0Classical? || policy.P1OptionalHybrid?) && verdict.IndeterminateVerdict?
    case BothPassedP1 => policy.P1OptionalHybrid? && verdict.HybridClaimSetSatisfied?
    case OnlyClassicalPassedP1 => policy.P1OptionalHybrid? && verdict.ClassicalClaimSetSatisfied?
    case AllRequiredPassed => policy.P2RequiredHybrid? && verdict.HybridClaimSetSatisfied?
    case AcceptedWithoutPostQuantum => policy.P2RequiredHybrid? && verdict.Reject?
    case RequiredFailed => policy.P2RequiredHybrid? && verdict.Reject?
    case RequiredIncomplete => policy.P2RequiredHybrid? && verdict.IndeterminateVerdict?
    case ContinuityRecordRequired => policy.P3Continuity? && verdict.IndeterminateVerdict?
  }

  lemma DecisionExplained(policy: Policy, a: Aggregates)
    requires !a.profile.Failed? && !a.path.Failed?
    ensures Explains(Decide(policy, a).reason, policy, Decide(policy, a).verdict)
  {
  }

  /** The reason given always belongs to the policy and the verdict. */
  lemma EveryVerdictIsExplained(request: VerificationRequest)
    ensures var r := Assessment(request); Explains(r.reason, r.policy, r.policyVerdict)
  {
    if !IsUnsupported(request) { DecisionExplained(request.policy, AggregatesOf(request)); }
  }

  lemma ReasonDecision(a: Aggregates)
    requires !a.profile.Failed? && !a.path.Failed?
    ensures Decide(P2RequiredHybrid, a).reason.AcceptedWithoutPostQuantum? <==>
            Decide(P0Classical, a).verdict.ClassicalClaimSetSatisfied? && a.postQuantum.Failed?
    ensures Decide(P2RequiredHybrid, a).reason.AcceptedWithoutPostQuantum? ==>
              Decide(P2RequiredHybrid, a).verdict.Reject? && Fallback(P2RequiredHybrid, Reject, a)
  {
  }

  /**
   * Required hybrid names the missing post-quantum evidence exactly when classical evidence alone convinced the
   * stack.
   */
  lemma ReasonExact(request: VerificationRequest)
    requires !IsUnsupported(request)
    ensures var r0, r2 := Assessment(request.(policy := P0Classical)), Assessment(request.(policy := P2RequiredHybrid));
            && (r2.reason.AcceptedWithoutPostQuantum? <==>
                  r0.policyVerdict.ClassicalClaimSetSatisfied? && KindState(request, PostQuantumEvidence).Failed?)
            && (r2.reason.AcceptedWithoutPostQuantum? ==> r2.policyVerdict.Reject? && r2.classicalOnlyFallback)
  {
    AssessedUnder(request, P0Classical);
    AssessedUnder(request, P2RequiredHybrid);
    ObservationsDecide(request, request.(policy := P2RequiredHybrid));
    ReasonDecision(AggregatesOf(request));
  }
}
