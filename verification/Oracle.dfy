/** The evaluation of a request: aggregate states, the verdict of each policy, and the list of failed checks. */
module Oracle {
  import opened Wrappers
  import opened Sequences
  import opened Model
  import opened RequestValidation
  import opened Aggregation

  // ----- the filters of the evaluation -----

  function NodeInScope(scope: PathScope): CertificateNode -> bool {
    (node: CertificateNode) => scope.Includes(node.position)
  }

  function ItemInScope(scope: PathScope): Evidence -> bool { (item: Evidence) => scope.Includes(item.position) }

  function OfKind(kind: EvidenceKind): Evidence -> bool { (item: Evidence) => item.kind == kind }

  function Requiring(kind: EvidenceKind): CertificateNode -> bool { (node: CertificateNode) => node.Requires(kind) }

  function ScopedCertificates(request: VerificationRequest): seq<CertificateNode> {
    Filter(request.certificatePath, NodeInScope(request.pathScope))
  }

  function ScopedEvidence(request: VerificationRequest): seq<Evidence> {
    Filter(request.evidence, ItemInScope(request.pathScope))
  }

  function ScopedItems(request: VerificationRequest, kind: EvidenceKind): seq<Evidence> {
    Filter(ScopedEvidence(request), OfKind(kind))
  }

  function RequiredCertificates(request: VerificationRequest, kind: EvidenceKind): seq<CertificateNode> {
    Filter(ScopedCertificates(request), Requiring(kind))
  }

  // ----- the decision -----

  /** What the verdict depends on. */
  datatype Aggregates = Aggregates(
    classical: AggregateState,
    postQuantum: AggregateState,
    stack: AggregateState,
    profile: AggregateState,
    path: AggregateState,
    design: AggregateState,
    requiresClassical: bool,
    evaluatesHybridClaim: bool)
  {
    predicate Accepted() { stack.Passed? && profile.Passed? }

    predicate ClassicalSucceeded() { Accepted() && requiresClassical && classical.Passed? }

    predicate HybridSucceeded() {
      Accepted() && design.Passed? && classical.Passed? && postQuantum.Passed? && path.Passed?
    }

    predicate ClassicalFailed() { !requiresClassical || classical.Failed? || stack.Failed? }
  }

  datatype Decision = Decision(verdict: PolicyVerdict, reason: Reason)

  /** The verdict cascade of each policy; the last arm of P2 is dead because profile and path never fail. */
  function Decide(policy: Policy, a: Aggregates): Decision
    requires !a.profile.Failed? && !a.path.Failed?
  {
    match policy
    case P0Classical =>
      if a.ClassicalFailed() then Decision(Reject, ClassicalOrStackFailed)
      else if a.classical.Passed? && a.Accepted() then Decision(ClassicalClaimSetSatisfied, ClassicalPassedP0)
      else Decision(IndeterminateVerdict, ClassicalIncomplete)
    case P1OptionalHybrid =>
      if a.ClassicalFailed() then Decision(Reject, ClassicalOrStackFailed)
      else if a.HybridSucceeded() then Decision(HybridClaimSetSatisfied, BothPassedP1)
      else if a.Accepted() && a.classical.Passed? then Decision(ClassicalClaimSetSatisfied, OnlyClassicalPassedP1)
      else Decision(IndeterminateVerdict, ClassicalIncomplete)
    case P2RequiredHybrid =>
      if a.HybridSucceeded() then Decision(HybridClaimSetSatisfied, AllRequiredPassed)
      else if a.ClassicalSucceeded() && a.postQuantum.Failed? then Decision(Reject, AcceptedWithoutPostQuantum)
      else if a.design.Failed? || a.classical.Failed? || a.postQuantum.Failed? || a.stack.Failed? then
        Decision(Reject, RequiredFailed)
      else if a.classical.Undetermined? || a.postQuantum.Undetermined? || a.stack.Undetermined?
              || a.profile.Undetermined? || a.path.Undetermined? || a.design.Undetermined? then
        Decision(IndeterminateVerdict, RequiredIncomplete)
      else
        assert false;
        Decision(IndeterminateVerdict, RequiredIncomplete)
    case P3Continuity => Decision(IndeterminateVerdict, ContinuityRecordRequired)
  }

  function Fallback(policy: Policy, verdict: PolicyVerdict, a: Aggregates): bool {
    match policy
    case P0Classical => false
    case P3Continuity => false
    case P1OptionalHybrid => verdict.ClassicalClaimSetSatisfied? && a.evaluatesHybridClaim
    case P2RequiredHybrid => a.ClassicalSucceeded() && (!a.postQuantum.Passed? || !a.design.Passed?)
  }

  function LifecycleFailed(items: seq<Evidence>): bool {
    exists item | item in items :: item.validity.state.Fail? || item.revocation.state.Fail?
  }

  // ----- failed checks -----

  /** Whether a check is listed: not applicable never is, anything else unless it passed with direct confidence. */
  predicate IsListed(check: CheckResult) {
    !check.state.NotApplicable? && (!check.state.Pass? || check.confidence.IsLow())
  }

  function ListedCheck(id: string): NamedCheck -> seq<FailedCheck> {
    (named: NamedCheck) =>
      if IsListed(named.check) then
        [FailedCheck(id, Slot(named.slot), named.check.state, named.check.confidence)]
      else []
  }

  function ItemFailures(item: Evidence): seq<FailedCheck> { FlatMap(item.Checks(), ListedCheck(item.id)) }

  function MissingEntry(node: CertificateNode, kind: EvidenceKind): FailedCheck {
    FailedCheck(node.id + ":" + kind.Name(), Slot(Present), CheckState.Fail, Observed)
  }

  predicate Lacks(items: seq<Evidence>, node: CertificateNode) {
    forall item | item in items :: item.certificateId != node.id
  }

  function MissingFrom(items: seq<Evidence>, kind: EvidenceKind): CertificateNode -> seq<FailedCheck> {
    (node: CertificateNode) => if Lacks(items, node) then [MissingEntry(node, kind)] else []
  }

  function MissingChecks(required: seq<CertificateNode>, items: seq<Evidence>, kind: EvidenceKind): seq<FailedCheck> {
    FlatMap(required, MissingFrom(items, kind))
  }

  predicate PairFails(certificates: seq<CertificateNode>, pair: PairedAuthentication) {
    && (exists node | node in certificates :: node.id == pair.classicalCertificateId)
    && !RequiredCheckState(pair.sameAuthenticationOperation, false).Passed?
  }

  function PairFailure(certificates: seq<CertificateNode>): PairedAuthentication -> seq<FailedCheck> {
    (pair: PairedAuthentication) =>
      if PairFails(certificates, pair) then
        [FailedCheck(pair.operationId, SameAuthenticationOperation,
                     pair.sameAuthenticationOperation.state, pair.sameAuthenticationOperation.confidence)]
      else []
  }

  lemma MissingExtends(failedChecks: seq<FailedCheck>, required: seq<CertificateNode>, items: seq<Evidence>,
                       kind: EvidenceKind, i: nat)
    requires i < |required|
    ensures failedChecks + MissingChecks(required[..i + 1], items, kind) ==
            failedChecks + MissingChecks(required[..i], items, kind) + MissingFrom(items, kind)(required[i])
  {
    FlatMapExtends(required, i, MissingFrom(items, kind));
    Associate(failedChecks, MissingChecks(required[..i], items, kind), MissingFrom(items, kind)(required[i]));
  }

  method AddMissingEvidenceChecks(failedChecks: seq<FailedCheck>, required: seq<CertificateNode>,
                                  items: seq<Evidence>, kind: EvidenceKind)
    returns (extended: seq<FailedCheck>)
    ensures extended == failedChecks + MissingChecks(required, items, kind)
  {
    extended := failedChecks;
    for i := 0 to |required|
      invariant extended == failedChecks + MissingChecks(required[..i], items, kind)
    {
      MissingExtends(failedChecks, required, items, kind, i);
      if Lacks(items, required[i]) {
        extended := extended + [MissingEntry(required[i], kind)];
      }
    }
    assert required[..|required|] == required;
  }

  method AddPairFailures(failedChecks: seq<FailedCheck>, certificates: seq<CertificateNode>,
                         pairs: seq<PairedAuthentication>)
    returns (extended: seq<FailedCheck>)
    ensures extended == failedChecks + FlatMap(pairs, PairFailure(certificates))
  {
    extended := failedChecks;
    for i := 0 to |pairs|
      invariant extended == failedChecks + FlatMap(pairs[..i], PairFailure(certificates))
    {
      FlatMapExtends(pairs, i, PairFailure(certificates));
      if PairFails(certificates, pairs[i]) {
        extended := extended + [FailedCheck(pairs[i].operationId, SameAuthenticationOperation,
                                            pairs[i].sameAuthenticationOperation.state,
                                            pairs[i].sameAuthenticationOperation.confidence)];
      }
    }
    assert pairs[..|pairs|] == pairs;
  }

  // ----- the specification of the evaluation -----

  predicate IsUnsupported(request: VerificationRequest) {
    || (exists node | node in ScopedCertificates(request) :: node.HasUnknownCryptoProperty())
    || request.stack.verdict.UnsupportedStack?
  }

  ghost function KindState(request: VerificationRequest, kind: EvidenceKind): AggregateState {
    EvidenceWorst(RequiredCertificates(request, kind), ScopedItems(request, kind), request.revocationPolicy.mode)
  }

  ghost function DesignState(request: VerificationRequest): AggregateState {
    DesignWorst(ScopedCertificates(request), request)
  }

  predicate EvaluatesHybridClaim(request: VerificationRequest) {
    || RequiredCertificates(request, PostQuantumEvidence) != []
    || exists node | node in ScopedCertificates(request) ::
         node.HasHybridDesign() || node.bindingDesign.RelatedCertificate?
  }

  ghost function AggregatesOf(request: VerificationRequest): (a: Aggregates)
    requires !request.stack.verdict.UnsupportedStack?
    ensures !a.profile.Failed? && !a.path.Failed?
  {
    Aggregates(
      KindState(request, ClassicalEvidence),
      KindState(request, PostQuantumEvidence),
      StackState(request),
      AuthenticationProfileState(request.stack.validationProfile),
      SelectedPathState(request),
      DesignState(request),
      RequiredCertificates(request, ClassicalEvidence) != [],
      EvaluatesHybridClaim(request))
  }

  function AllFailures(request: VerificationRequest): seq<FailedCheck> {
    FlatMap(ScopedEvidence(request), ItemFailures)
    + MissingChecks(RequiredCertificates(request, ClassicalEvidence), ScopedItems(request, ClassicalEvidence),
                    ClassicalEvidence)
    + MissingChecks(RequiredCertificates(request, PostQuantumEvidence), ScopedItems(request, PostQuantumEvidence),
                    PostQuantumEvidence)
    + FlatMap(request.pairedAuthentications, PairFailure(ScopedCertificates(request)))
  }

  function ResultFor(request: VerificationRequest, verdict: PolicyVerdict, fallback: bool, lifecycle: bool,
                     failedChecks: seq<FailedCheck>, reason: Reason): VerificationResult
  {
    VerificationResult(
      API_VERSION, request.policy, request.pathScope, request.validationTime, request.previousAuthentication,
      request.revocationPolicy, request.stack, request.expectedTrustAnchor, request.certificatePath,
      request.pairedAuthentications, request.stack.verdict, verdict, fallback, lifecycle, request.evidence,
      failedChecks, reason)
  }

  /** The result for a request that passed validation. */
  ghost function Assessment(request: VerificationRequest): VerificationResult {
    if IsUnsupported(request) then ResultFor(request, Unsupported, false, false, [], UnsupportedInput)
    else
      var a := AggregatesOf(request);
      var decision := Decide(request.policy, a);
      var fallback := Fallback(request.policy, decision.verdict, a);
      ResultFor(request, decision.verdict, fallback,
                fallback && LifecycleFailed(ScopedItems(request, PostQuantumEvidence)),
                AllFailures(request), decision.reason)
  }

  ghost function Evaluation(request: VerificationRequest, isRfc3339: string -> bool)
    : Result<VerificationResult, OracleError>
  {
    var error := Validation(request, isRfc3339);
    if error.Some? then Err(error.value) else Ok(Assessment(request))
  }

  // ----- the imperative evaluation -----

  method ComputeAggregates(request: VerificationRequest) returns (a: Aggregates)
    requires !request.stack.verdict.UnsupportedStack?
    ensures a == AggregatesOf(request)
  {
    var mode := request.revocationPolicy.mode;
    var classicalRequired := RequiredCertificates(request, ClassicalEvidence);
    var pqRequired := RequiredCertificates(request, PostQuantumEvidence);
    var classicalState := EvidenceState(classicalRequired, ScopedItems(request, ClassicalEvidence), mode);
    var pqState := EvidenceState(pqRequired, ScopedItems(request, PostQuantumEvidence), mode);
    var pathState := ValidatedPathState(request);
    var designState := HybridAuthenticationDesignState(ScopedCertificates(request), request);
    a := Aggregates(classicalState, pqState, StackState(request),
                    AuthenticationProfileState(request.stack.validationProfile), pathState, designState,
                    classicalRequired != [], EvaluatesHybridClaim(request));
  }

  method CollectFailedChecks(request: VerificationRequest) returns (failedChecks: seq<FailedCheck>)
    ensures failedChecks == AllFailures(request)
  {
    failedChecks := FlatMap(ScopedEvidence(request), ItemFailures);
    failedChecks := AddMissingEvidenceChecks(
      failedChecks, RequiredCertificates(request, ClassicalEvidence), ScopedItems(request, ClassicalEvidence),
      ClassicalEvidence);
    failedChecks := AddMissingEvidenceChecks(
      failedChecks, RequiredCertificates(request, PostQuantumEvidence), ScopedItems(request, PostQuantumEvidence),
      PostQuantumEvidence);
    failedChecks := AddPairFailures(failedChecks, ScopedCertificates(request), request.pairedAuthentications);
  }

  method Evaluate(request: VerificationRequest, isRfc3339: string -> bool)
    returns (result: Result<VerificationResult, OracleError>)
    ensures result == Evaluation(request, isRfc3339)
  {
    var error := ValidateRequest(request, isRfc3339);
    if error.Some? { return Err(error.value); }
    if IsUnsupported(request) {
      return Ok(ResultFor(request, Unsupported, false, false, [], UnsupportedInput));
    }
    var a := ComputeAggregates(request);
    var decision := Decide(request.policy, a);
    var fallback := Fallback(request.policy, decision.verdict, a);
    var lifecycle := fallback && LifecycleFailed(ScopedItems(request, PostQuantumEvidence));
    var failedChecks := CollectFailedChecks(request);
    result := Ok(ResultFor(request, decision.verdict, fallback, lifecycle, failedChecks, decision.reason));
  }
}
