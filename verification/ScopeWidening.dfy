/** Widening the scope of a request from its end entity to its whole path. */
module ScopeWidening {
  import opened Model
  import opened Terms
  import opened WellFormedness
  import opened Aggregation
  import opened Oracle
  import opened HybridAcceptance
  import opened Rejection

  function Rank(verdict: PolicyVerdict): int {
    match verdict
    case Reject => 0
    case IndeterminateVerdict => 1
    case ClassicalClaimSetSatisfied => 2
    case HybridClaimSetSatisfied => 3
    case Unsupported => -1
  }

  lemma ScopeKeepsWellFormedness(request: VerificationRequest, scope: PathScope, isRfc3339: string -> bool)
    requires WellFormed(request, isRfc3339)
    ensures WellFormed(request.(pathScope := scope), isRfc3339)
  {
    var scoped := request.(pathScope := scope);
    forall item | item in scoped.evidence ensures WellFormedItem(scoped, item) {
      assert WellFormedItem(request, item);
      var node :| node in request.certificatePath && Bound(request, node, item);
      assert Bound(scoped, node, item);
    }
  }

  lemma SameItemsShowTheSame(node: CertificateNode, a: seq<Evidence>, b: seq<Evidence>, mode: RevocationPolicyMode,
                             s: AggregateState)
    requires forall item :: (item in a && item.certificateId == node.id) <==>
                            (item in b && item.certificateId == node.id)
    ensures CertificateShows(node, a, mode, s) <==> CertificateShows(node, b, mode, s)
  {
  }

  lemma NodeShowsInBoth(narrow: VerificationRequest, wide: VerificationRequest, isRfc3339: string -> bool,
                        node: CertificateNode, kind: EvidenceKind, s: AggregateState)
    requires wide == narrow.(pathScope := CertificationPath)
    requires WellFormed(narrow, isRfc3339) && InScope(narrow, node)
    ensures InScope(wide, node)
    ensures NodeShows(narrow, node, kind, s) <==> NodeShows(wide, node, kind, s)
  {
    PathShape(narrow, isRfc3339);
    ScopeKeepsWellFormedness(narrow, CertificationPath, isRfc3339);
    ItemsOfNode(narrow, isRfc3339, node, kind);
    ItemsOfNode(wide, isRfc3339, node, kind);
    SameItemsShowTheSame(node, ScopedItems(narrow, kind), ScopedItems(wide, kind), narrow.revocationPolicy.mode, s);
  }

  lemma ScopeKeepsDesign(narrow: VerificationRequest, wide: VerificationRequest, node: CertificateNode)
    requires wide == narrow.(pathScope := CertificationPath)
    ensures CertificateDesignState(node, narrow) == CertificateDesignState(node, wide)
  {
  }

  lemma NodeContributesInBoth(narrow: VerificationRequest, wide: VerificationRequest, isRfc3339: string -> bool,
                              node: CertificateNode, s: AggregateState)
    requires wide == narrow.(pathScope := CertificationPath)
    requires WellFormed(narrow, isRfc3339) && InScope(narrow, node) && NodeContributes(narrow, node, s)
    ensures InScope(wide, node) && NodeContributes(wide, node, s)
  {
    NodeShowsInBoth(narrow, wide, isRfc3339, node, ClassicalEvidence, s);
    NodeShowsInBoth(narrow, wide, isRfc3339, node, PostQuantumEvidence, s);
    ScopeKeepsDesign(narrow, wide, node);
  }

  lemma EveryNarrowStateIsShown(narrow: VerificationRequest, wide: VerificationRequest, isRfc3339: string -> bool,
                                s: AggregateState)
    requires wide == narrow.(pathScope := CertificationPath)
    requires WellFormed(narrow, isRfc3339) && !narrow.stack.verdict.UnsupportedStack?
    requires RequestShows(narrow, s)
    ensures RequestShows(wide, s)
  {
    ScopedNodes(narrow);
    ScopedNodes(wide);
    if node :| InScope(narrow, node) && NodeContributes(narrow, node, s) {
      NodeContributesInBoth(narrow, wide, isRfc3339, node, s);
    }
  }

  lemma UnsupportedStaysUnsupported(narrow: VerificationRequest, wide: VerificationRequest, isRfc3339: string -> bool)
    requires wide == narrow.(pathScope := CertificationPath)
    requires WellFormed(narrow, isRfc3339) && IsUnsupported(narrow)
    ensures IsUnsupported(wide)
  {
    ScopedNodes(narrow);
    ScopedNodes(wide);
    PathShape(narrow, isRfc3339);
  }

  /** The minimum of more states is no better. */
  lemma RanksFollowStates(narrow: PolicyVerdict, wide: PolicyVerdict, narrowFails: bool, narrowOpen: bool,
                          wideFails: bool, wideOpen: bool)
    requires narrow ==
             if narrowFails then Reject else if narrowOpen then IndeterminateVerdict else HybridClaimSetSatisfied
    requires wide == if wideFails then Reject else if wideOpen then IndeterminateVerdict else HybridClaimSetSatisfied
    requires (narrowFails ==> wideFails) && (narrowOpen ==> wideOpen)
    ensures Rank(wide) <= Rank(narrow)
  {
  }

  /** Under required hybrid, looking at more certificates never gives a better verdict. */
  lemma WideningNeverStrengthens(request: VerificationRequest, isRfc3339: string -> bool)
    requires WellFormed(request, isRfc3339) && request.policy.P2RequiredHybrid?
    ensures var narrow := Assessment(request.(pathScope := EndEntityScope)).policyVerdict;
            var wide := Assessment(request.(pathScope := CertificationPath)).policyVerdict;
            wide.Unsupported? || Rank(wide) <= Rank(narrow)
  {
    var narrow, wide := request.(pathScope := EndEntityScope), request.(pathScope := CertificationPath);
    ScopeKeepsWellFormedness(request, EndEntityScope, isRfc3339);
    if !IsUnsupported(wide) {
      assert !IsUnsupported(narrow) by {
        if IsUnsupported(narrow) { UnsupportedStaysUnsupported(narrow, wide, isRfc3339); }
      }
      if RequestShows(narrow, Failed) { EveryNarrowStateIsShown(narrow, wide, isRfc3339, Failed); }
      if RequestShows(narrow, Undetermined) { EveryNarrowStateIsShown(narrow, wide, isRfc3339, Undetermined); }
      RequiredHybridIsMinimum(narrow);
      RequiredHybridIsMinimum(wide);
      RanksFollowStates(Assessment(narrow).policyVerdict, Assessment(wide).policyVerdict,
                        RequestShows(narrow, Failed), RequestShows(narrow, Undetermined),
                        RequestShows(wide, Failed), RequestShows(wide, Undetermined));
    }
  }

  // ----- the optional and classical policies -----

  lemma KindStateOrdered(narrow: VerificationRequest, wide: VerificationRequest, isRfc3339: string -> bool,
                         kind: EvidenceKind, s: AggregateState)
    requires wide == narrow.(pathScope := CertificationPath)
    requires WellFormed(narrow, isRfc3339)
    ensures EvidenceShows(RequiredCertificates(narrow, kind), ScopedItems(narrow, kind), narrow.revocationPolicy.mode,
                          s)
            ==> EvidenceShows(RequiredCertificates(wide, kind), ScopedItems(wide, kind), wide.revocationPolicy.mode, s)
  {
    KindShows(narrow, kind, s);
    KindShows(wide, kind, s);
    ScopedNodes(narrow);
    ScopedNodes(wide);
    if node :| InScope(narrow, node) && NodeShows(narrow, node, kind, s) {
      NodeShowsInBoth(narrow, wide, isRfc3339, node, kind, s);
    }
  }

  lemma DesignOrdered(narrow: VerificationRequest, wide: VerificationRequest, isRfc3339: string -> bool)
    requires wide == narrow.(pathScope := CertificationPath)
    requires WellFormed(narrow, isRfc3339) && DesignState(wide).Passed?
    ensures DesignState(narrow).Passed?
  {
    ScopedNodes(narrow);
    ScopedNodes(wide);
    PathShape(narrow, isRfc3339);
    forall node | node in ScopedCertificates(narrow) ensures CertificateDesignState(node, narrow).Passed? {
      assert node in ScopedCertificates(wide);
      ScopeKeepsDesign(narrow, wide, node);
    }
  }

  /** No state of x is better than that of y, where y looks at fewer certificates. */
  predicate NotBetter(x: AggregateState, y: AggregateState) { x.Failed? || y.Passed? || x == y }

  lemma KindNotBetter(narrow: VerificationRequest, wide: VerificationRequest, isRfc3339: string -> bool,
                      kind: EvidenceKind)
    requires wide == narrow.(pathScope := CertificationPath)
    requires WellFormed(narrow, isRfc3339)
    ensures NotBetter(KindState(wide, kind), KindState(narrow, kind))
  {
    KindStateOrdered(narrow, wide, isRfc3339, kind, Failed);
    KindStateOrdered(narrow, wide, isRfc3339, kind, Undetermined);
  }

  lemma AggregatesOrdered(narrow: VerificationRequest, wide: VerificationRequest, isRfc3339: string -> bool)
    requires wide == narrow.(pathScope := CertificationPath)
    requires WellFormed(narrow, isRfc3339) && !narrow.stack.verdict.UnsupportedStack?
    ensures var n, w := AggregatesOf(narrow), AggregatesOf(wide);
            && NotBetter(w.classical, n.classical)
            && NotBetter(w.postQuantum, n.postQuantum)
            && (w.design.Passed? ==> n.design.Passed?)
            && w.stack == n.stack && w.profile == n.profile && w.path == n.path
  {
    KindNotBetter(narrow, wide, isRfc3339, ClassicalEvidence);
    KindNotBetter(narrow, wide, isRfc3339, PostQuantumEvidence);
    if DesignState(wide).Passed? { DesignOrdered(narrow, wide, isRfc3339); }
  }

  lemma DecisionsOrdered(policy: Policy, n: Aggregates, w: Aggregates)
    requires policy.P0Classical? || policy.P1OptionalHybrid?
    requires !n.profile.Failed? && !n.path.Failed? && !w.profile.Failed? && !w.path.Failed?
    requires NotBetter(w.classical, n.classical) && NotBetter(w.postQuantum, n.postQuantum)
    requires w.design.Passed? ==> n.design.Passed?
    requires w.stack == n.stack && w.profile == n.profile && w.path == n.path
    ensures Rank(Decide(policy, w).verdict) > Rank(Decide(policy, n).verdict) <==>
            !n.requiresClassical && Rank(Decide(policy, w).verdict) > Rank(Reject)
  {
  }

  lemma RaisedBySuccess(narrow: VerificationRequest, wide: VerificationRequest, isRfc3339: string -> bool)
    requires wide == narrow.(pathScope := CertificationPath)
    requires WellFormed(narrow, isRfc3339) && (narrow.policy.P0Classical? || narrow.policy.P1OptionalHybrid?)
    requires !IsUnsupported(wide)
    ensures !IsUnsupported(narrow)
    ensures Rank(Assessment(wide).policyVerdict) > Rank(Assessment(narrow).policyVerdict) <==>
            !RequiresClassicalInScope(narrow) && Rank(Assessment(wide).policyVerdict) > Rank(Reject)
  {
    if IsUnsupported(narrow) { UnsupportedStaysUnsupported(narrow, wide, isRfc3339); }
    AggregatesOrdered(narrow, wide, isRfc3339);
    ClassicalRequirement(narrow);
    OrderedAssessments(narrow, wide);
  }

  lemma RaisedExact(narrow: PolicyVerdict, wide: PolicyVerdict, required: bool, supported: bool, grounds: bool)
    requires wide.Unsupported? <==> !supported
    requires supported ==> (wide.Reject? <==> grounds)
    requires supported ==> (Rank(wide) > Rank(narrow) <==> !required && Rank(wide) > Rank(Reject))
    ensures Rank(wide) > Rank(narrow) <==> !required && supported && !grounds
  {
  }

  /**
   * Classical and optional-hybrid verdicts do rise with the scope, and only in one case: the end entity needs no
   * classical evidence, so that alone it is rejected, while the path is supported and shows no ground for rejection;
   * in particular some intermediate needs classical evidence.
   */
  lemma WideningMayRaiseClassical(request: VerificationRequest, isRfc3339: string -> bool)
    requires WellFormed(request, isRfc3339) && (request.policy.P0Classical? || request.policy.P1OptionalHybrid?)
    ensures var narrow, wide := request.(pathScope := EndEntityScope), request.(pathScope := CertificationPath);
            Rank(Assessment(wide).policyVerdict) > Rank(Assessment(narrow).policyVerdict) <==>
            !RequiresClassicalInScope(narrow) && IsSupported(wide) && !RejectionGrounds(wide)
  {
    var narrow, wide := request.(pathScope := EndEntityScope), request.(pathScope := CertificationPath);
    ScopeKeepsWellFormedness(request, EndEntityScope, isRfc3339);
    ScopeKeepsWellFormedness(request, CertificationPath, isRfc3339);
    SupportedExact(wide);
    UnsupportedAssessmentExact(wide);
    if !IsUnsupported(wide) {
      RejectedAssessmentExact(wide, isRfc3339);
      RaisedBySuccess(narrow, wide, isRfc3339);
    }
    RaisedExact(Assessment(narrow).policyVerdict, Assessment(wide).policyVerdict, RequiresClassicalInScope(narrow),
                IsSupported(wide), RejectionGrounds(wide));
  }

  lemma OrderedAssessments(narrow: VerificationRequest, wide: VerificationRequest)
    requires narrow.policy == wide.policy && (narrow.policy.P0Classical? || narrow.policy.P1OptionalHybrid?)
    requires !IsUnsupported(narrow) && !IsUnsupported(wide)
    requires var n, w := AggregatesOf(narrow), AggregatesOf(wide);
             && NotBetter(w.classical, n.classical)
             && NotBetter(w.postQuantum, n.postQuantum)
             && (w.design.Passed? ==> n.design.Passed?)
             && w.stack == n.stack && w.profile == n.profile && w.path == n.path
    ensures Rank(Assessment(wide).policyVerdict) > Rank(Assessment(narrow).policyVerdict) <==>
            RequiredCertificates(narrow, ClassicalEvidence) == [] && Rank(Assessment(wide).policyVerdict) > Rank(Reject)
  {
    DecisionsOrdered(narrow.policy, AggregatesOf(narrow), AggregatesOf(wide));
  }
}
