/** A request with flawless evidence and nothing listed that is rejected all the same. */
module FlawlessExample {
  import opened Wrappers
  import opened Model
  import opened Terms
  import opened RequestValidation
  import opened WellFormedness
  import opened Oracle
  import opened FailureAccounting
  import opened Rejection
  import opened EmptyListVerdicts
  import opened Counterexamples

  const ClassicalLeaf := CertificateNode("leaf", EndEntity, Classical, Classical, Unbound,
                                         Some(Digest('a')), Some(Digest('c')))

  /** A purely classical leaf with flawless classical evidence, under the policy that requires a hybrid one. */
  function ClassicalAlone(): VerificationRequest {
    Request(P2RequiredHybrid, EndEntityScope, [ClassicalLeaf], [Digest('a')],
            [Item("classical", ClassicalLeaf, ClassicalEvidence, Good)])
  }

  lemma ClassicalAloneIsAccepted(isRfc3339: string -> bool)
    requires isRfc3339("2026-06-20T00:00:00Z")
    ensures Validation(ClassicalAlone(), isRfc3339).None? && IsSupported(ClassicalAlone())
  {
    ClassicalAloneIsWellFormed(isRfc3339);
    ValidationExact(ClassicalAlone(), isRfc3339);
  }

  lemma ClassicalAloneIsWellFormed(isRfc3339: string -> bool)
    requires isRfc3339("2026-06-20T00:00:00Z")
    ensures WellFormed(ClassicalAlone(), isRfc3339)
  {
    ItemIsWellFormed(ClassicalAlone(), ClassicalLeaf, ClassicalAlone().evidence[0]);
  }

  lemma ClassicalAloneLacksNothing(kind: EvidenceKind, node: CertificateNode)
    ensures !IsAbsent(ClassicalAlone(), node, kind)
  {
    var request := ClassicalAlone();
    assert Needs(ClassicalLeaf, kind) ==> IsScopedEvidence(request, request.evidence[0], kind, ClassicalLeaf.id);
  }

  lemma ClassicalAloneHasNothingToReport()
    ensures NothingReported(ClassicalAlone())
  {
    var request := ClassicalAlone();
    forall node, kind ensures !IsAbsent(request, node, kind) { ClassicalAloneLacksNothing(kind, node); }
  }

  lemma ClassicalAloneIsAccountable(kind: EvidenceKind)
    ensures AllAccountable(ClassicalAlone(), kind)
  {
    var request := ClassicalAlone();
    forall node, item | InScope(request, node) && IsScopedEvidence(request, item, kind, node.id)
      ensures Accountable(node, item, HardFail)
    {
      FlawlessItemIsAccountable(node, item);
    }
  }

  lemma FlawlessItemIsAccountable(node: CertificateNode, item: Evidence)
    requires node == ClassicalLeaf && item == Item(item.id, node, item.kind, Good)
    ensures Accountable(node, item, HardFail)
  {
  }

  lemma ClassicalAloneHasGrounds()
    ensures UnlistedGrounds(ClassicalAlone())
  {
    assert InScope(ClassicalAlone(), ClassicalLeaf) && !BindsPostQuantum(ClassicalLeaf);
  }

  lemma SupportedResult(request: VerificationRequest, isRfc3339: string -> bool)
    ensures Validation(request, isRfc3339).None? && IsSupported(request) && AllFailures(request) == [] ==>
              Evaluation(request, isRfc3339).Ok? && Evaluation(request, isRfc3339).value.failedChecks == []
  {
    SupportedExact(request);
  }

  /** Nor is it a matter of inapplicable checks alone: a design that binds nothing post-quantum is never listed. */
  lemma FlawlessEvidenceMayBeRejected(isRfc3339: string -> bool)
    requires isRfc3339("2026-06-20T00:00:00Z")
    ensures var r := Evaluation(ClassicalAlone(), isRfc3339);
            r.Ok? && r.value.failedChecks == [] && r.value.policyVerdict.Reject?
    ensures forall kind :: AllAccountable(ClassicalAlone(), kind)
  {
    ClassicalAloneIsAccepted(isRfc3339);
    ClassicalAloneHasNothingToReport();
    EmptyListExact(ClassicalAlone());
    ClassicalAloneHasGrounds();
    RejectedUnlisted(ClassicalAlone(), isRfc3339);
    forall kind ensures AllAccountable(ClassicalAlone(), kind) { ClassicalAloneIsAccountable(kind); }
  }

  lemma RejectedUnlisted(request: VerificationRequest, isRfc3339: string -> bool)
    ensures Validation(request, isRfc3339).None? && IsSupported(request) && AllFailures(request) == []
            && UnlistedGrounds(request) ==>
              var r := Evaluation(request, isRfc3339);
              r.Ok? && r.value.failedChecks == [] && r.value.policyVerdict.Reject?
  {
    if Validation(request, isRfc3339).None? && IsSupported(request) && AllFailures(request) == [] {
      SupportedResult(request, isRfc3339);
      EmptyListVerdictExact(request, isRfc3339);
    }
  }
}
