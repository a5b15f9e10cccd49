/** A path that the classical policy accepts although it rejects the end entity alone. */
module WideningExample {
  import opened Wrappers
  import opened Model
  import opened Terms
  import opened WellFormedness
  import opened Oracle
  import opened HybridAcceptance
  import opened ScopeWidening
  import opened Counterexamples

  const PureLeaf := CertificateNode("leaf", EndEntity, PostQuantum, PostQuantum, Unbound,
                                    Some(Digest('a')), Some(Digest('c')))

  const ClassicalIssuer := CertificateNode("issuer", Intermediate, Classical, Classical, Unbound,
                                           Some(Digest('b')), Some(Digest('d')))

  /** A pure post-quantum leaf under a classical issuer, with evidence for the issuer only. */
  function PureUnderClassical(scope: PathScope): VerificationRequest {
    Request(P0Classical, scope, [PureLeaf, ClassicalIssuer], [Digest('a'), Digest('b')],
            [Item("issuer-evidence", ClassicalIssuer, ClassicalEvidence, Good)])
  }

  lemma PureUnderClassicalIsWellFormed(isRfc3339: string -> bool)
    requires isRfc3339("2026-06-20T00:00:00Z")
    ensures WellFormed(PureUnderClassical(CertificationPath), isRfc3339)
  {
    var request := PureUnderClassical(CertificationPath);
    ItemIsWellFormed(request, ClassicalIssuer, request.evidence[0]);
    PurePathIsWellFormed();
  }

  lemma PurePathIsWellFormed()
    ensures var request := PureUnderClassical(CertificationPath);
            WellFormedPath(request.certificatePath, request.stack)
  {
    assert PureLeaf.id[0] != ClassicalIssuer.id[0];
  }

  lemma IssuerEvidenceIsComplete()
    ensures HasOneCompleteItem(PureUnderClassical(CertificationPath), ClassicalIssuer, ClassicalEvidence)
  {
    var request := PureUnderClassical(CertificationPath);
    assert Complete(request, ClassicalIssuer, request.evidence[0]);
  }

  lemma WidePathIsAccepted()
    ensures ClassicalAccepted(PureUnderClassical(CertificationPath))
  {
    var request := PureUnderClassical(CertificationPath);
    IssuerEvidenceIsComplete();
    assert InScope(request, ClassicalIssuer);
    assert forall node | InScope(request, node) :: node == PureLeaf || node == ClassicalIssuer;
  }

  lemma NarrowPathNeedsNothingClassical()
    ensures !RequiresClassicalInScope(PureUnderClassical(EndEntityScope))
    ensures !IsUnsupported(PureUnderClassical(EndEntityScope))
  {
    var request := PureUnderClassical(EndEntityScope);
    ScopedNodes(request);
    assert forall node | InScope(request, node) :: node == PureLeaf;
  }

  lemma RejectedWithoutRequirement(request: VerificationRequest)
    requires request.policy.P0Classical? && !IsUnsupported(request) && !RequiresClassicalInScope(request)
    ensures Assessment(request).policyVerdict.Reject?
  {
    ClassicalRequirement(request);
  }

  lemma NarrowedIsWellFormed(isRfc3339: string -> bool)
    requires isRfc3339("2026-06-20T00:00:00Z")
    ensures WellFormed(PureUnderClassical(EndEntityScope), isRfc3339)
  {
    PureUnderClassicalIsWellFormed(isRfc3339);
    ScopeKeepsWellFormedness(PureUnderClassical(CertificationPath), EndEntityScope, isRfc3339);
    assert PureUnderClassical(EndEntityScope) == PureUnderClassical(CertificationPath).(pathScope := EndEntityScope);
  }

  lemma NarrowPathIsRejected()
    ensures Assessment(PureUnderClassical(EndEntityScope)).policyVerdict.Reject?
  {
    NarrowPathNeedsNothingClassical();
    RejectedWithoutRequirement(PureUnderClassical(EndEntityScope));
  }

  lemma WidePathIsSatisfied(isRfc3339: string -> bool)
    requires isRfc3339("2026-06-20T00:00:00Z")
    ensures Assessment(PureUnderClassical(CertificationPath)).policyVerdict.ClassicalClaimSetSatisfied?
  {
    PureUnderClassicalIsWellFormed(isRfc3339);
    WidePathIsAccepted();
    ClassicalAssessmentExact(PureUnderClassical(CertificationPath), isRfc3339);
  }

  /** The classical policy accepts a path whose end entity it rejects alone. */
  lemma WideningRaisesClassical(isRfc3339: string -> bool)
    requires isRfc3339("2026-06-20T00:00:00Z")
    ensures var narrow, wide := Evaluation(PureUnderClassical(EndEntityScope), isRfc3339),
                                Evaluation(PureUnderClassical(CertificationPath), isRfc3339);
            && narrow.Ok? && narrow.value.policyVerdict.Reject?
            && wide.Ok? && wide.value.policyVerdict.ClassicalClaimSetSatisfied?
  {
    NarrowedIsWellFormed(isRfc3339);
    EvaluatedAs(PureUnderClassical(EndEntityScope), isRfc3339);
    NarrowPathIsRejected();
    PureUnderClassicalIsWellFormed(isRfc3339);
    EvaluatedAs(PureUnderClassical(CertificationPath), isRfc3339);
    WidePathIsSatisfied(isRfc3339);
  }
}
