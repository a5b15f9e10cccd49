/** Reordering the evidence and the paired authentications of a request. */
module Reordering {
  import opened Wrappers
  import opened Sequences
  import opened Model
  import opened RequestValidation
  import opened WellFormedness
  import opened Aggregation
  import opened Oracle
  import opened HybridAcceptance

  /** b lists the evidence and the pairs of a in some other order. */
  ghost predicate Reordered(a: VerificationRequest, b: VerificationRequest) {
    && multiset(a.evidence) == multiset(b.evidence)
    && multiset(a.pairedAuthentications) == multiset(b.pairedAuthentications)
    && b == a.(evidence := b.evidence, pairedAuthentications := b.pairedAuthentications)
  }

  lemma ReorderedBack(a: VerificationRequest, b: VerificationRequest)
    requires Reordered(a, b)
    ensures Reordered(b, a)
  {
  }

  lemma ValidityIgnoresOrder(a: VerificationRequest, b: VerificationRequest, isRfc3339: string -> bool)
    requires Reordered(a, b)
    ensures Validation(a, isRfc3339).None? <==> Validation(b, isRfc3339).None?
  {
    ValidationExact(a, isRfc3339);
    ValidationExact(b, isRfc3339);
    ReorderedBack(a, b);
    if WellFormed(a, isRfc3339) { PermutedStaysWellFormed(a, b, isRfc3339); }
    if WellFormed(b, isRfc3339) { PermutedStaysWellFormed(b, a, isRfc3339); }
  }

  lemma ItemsReordered(a: VerificationRequest, b: VerificationRequest, kind: EvidenceKind)
    requires Reordered(a, b)
    ensures multiset(ScopedEvidence(a)) == multiset(ScopedEvidence(b))
    ensures multiset(ScopedItems(a, kind)) == multiset(ScopedItems(b, kind))
    ensures forall item :: item in ScopedItems(a, kind) <==> item in ScopedItems(b, kind)
  {
    FilterReordered(a.evidence, b.evidence, ItemInScope(a.pathScope));
    FilterReordered(ScopedEvidence(a), ScopedEvidence(b), OfKind(kind));
    SameMembers(ScopedItems(a, kind), ScopedItems(b, kind));
  }

  lemma SameMembersShowTheSame(required: seq<CertificateNode>, a: seq<Evidence>, b: seq<Evidence>,
                               mode: RevocationPolicyMode)
    requires forall item :: item in a <==> item in b
    ensures EvidenceWorst(required, a, mode) == EvidenceWorst(required, b, mode)
  {
    forall node, s ensures CertificateShows(node, a, mode, s) <==> CertificateShows(node, b, mode, s) {
    }
  }

  lemma FirstNamedPairIgnoresOrder(a: VerificationRequest, b: VerificationRequest, isRfc3339: string -> bool,
                                   node: CertificateNode)
    requires Reordered(a, b) && WellFormed(a, isRfc3339)
    requires node in a.certificatePath && node.bindingDesign.RelatedCertificate?
    ensures FirstNamedPair(node, a) == FirstNamedPair(node, b)
  {
    FirstNamed(a, node);
    FirstNamed(b, node);
    SameMembers(a.evidence, b.evidence);
    SameMembers(a.pairedAuthentications, b.pairedAuthentications);
    var inA, inB := Find(a.evidence, NamesCertificate(node.id)), Find(b.evidence, NamesCertificate(node.id));
    if inA.Some? {
      var pair := NamedPairOfNode(a, isRfc3339, node, inA.value);
      PairFoundByName(b.pairedAuthentications, pair);
      assert NamedPair(b, inB.value) == Some(pair);
    }
  }

  lemma PairFoundByName(pairs: seq<PairedAuthentication>, pair: PairedAuthentication)
    requires pair in pairs
    requires forall other | other in pairs && other.operationId == pair.operationId :: other == pair
    ensures PairOf(pairs, pair.operationId) == Some(pair)
  {
    assert HasOperation(pair.operationId)(pair);
    assert HasOperation(pair.operationId)(PairOf(pairs, pair.operationId).value);
  }

  lemma DesignIgnoresOrder(a: VerificationRequest, b: VerificationRequest, isRfc3339: string -> bool)
    requires Reordered(a, b) && WellFormed(a, isRfc3339)
    ensures DesignState(a) == DesignState(b)
  {
    ScopedNodes(a);
    forall node | node in ScopedCertificates(a)
      ensures CertificateDesignState(node, a) == CertificateDesignState(node, b)
    {
      if node.bindingDesign.RelatedCertificate? { FirstNamedPairIgnoresOrder(a, b, isRfc3339, node); }
    }
  }

  lemma KindIgnoresOrder(a: VerificationRequest, b: VerificationRequest, kind: EvidenceKind)
    requires Reordered(a, b)
    ensures KindState(a, kind) == KindState(b, kind)
  {
    ItemsReordered(a, b, kind);
    SameMembersShowTheSame(RequiredCertificates(a, kind), ScopedItems(a, kind), ScopedItems(b, kind),
                           a.revocationPolicy.mode);
  }

  lemma OtherAggregatesIgnoreOrder(a: VerificationRequest, b: VerificationRequest)
    requires b == a.(evidence := b.evidence, pairedAuthentications := b.pairedAuthentications)
    requires !a.stack.verdict.UnsupportedStack?
    ensures var x, y := AggregatesOf(a), AggregatesOf(b);
            y == x.(classical := y.classical, postQuantum := y.postQuantum, design := y.design)
  {
    assert ScopedCertificates(a) == ScopedCertificates(b);
    assert RequiredCertificates(a, ClassicalEvidence) == RequiredCertificates(b, ClassicalEvidence);
    assert EvaluatesHybridClaim(a) == EvaluatesHybridClaim(b);
  }

  lemma AggregatesIgnoreOrder(a: VerificationRequest, b: VerificationRequest, isRfc3339: string -> bool)
    requires Reordered(a, b) && WellFormed(a, isRfc3339) && !a.stack.verdict.UnsupportedStack?
    ensures AggregatesOf(a) == AggregatesOf(b)
  {
    OtherAggregatesIgnoreOrder(a, b);
    DesignIgnoresOrder(a, b, isRfc3339);
    KindIgnoresOrder(a, b, ClassicalEvidence);
    KindIgnoresOrder(a, b, PostQuantumEvidence);
  }

  lemma MissingIgnoresOrder(a: VerificationRequest, b: VerificationRequest, kind: EvidenceKind)
    requires Reordered(a, b)
    ensures MissingChecks(RequiredCertificates(a, kind), ScopedItems(a, kind), kind)
            == MissingChecks(RequiredCertificates(b, kind), ScopedItems(b, kind), kind)
  {
    ItemsReordered(a, b, kind);
    FlatMapCongruent(RequiredCertificates(a, kind), MissingFrom(ScopedItems(a, kind), kind),
                     MissingFrom(ScopedItems(b, kind), kind));
  }

  lemma FailuresIgnoreOrder(a: VerificationRequest, b: VerificationRequest)
    requires Reordered(a, b)
    ensures multiset(AllFailures(a)) == multiset(AllFailures(b))
  {
    ItemsReordered(a, b, ClassicalEvidence);
    FlatMapReordered(ScopedEvidence(a), ScopedEvidence(b), ItemFailures);
    MissingIgnoresOrder(a, b, ClassicalEvidence);
    MissingIgnoresOrder(a, b, PostQuantumEvidence);
    FlatMapReordered(a.pairedAuthentications, b.pairedAuthentications, PairFailure(ScopedCertificates(a)));
  }

  lemma LifecycleIgnoresOrder(a: VerificationRequest, b: VerificationRequest)
    requires Reordered(a, b)
    ensures LifecycleFailed(ScopedItems(a, PostQuantumEvidence)) == LifecycleFailed(ScopedItems(b, PostQuantumEvidence))
  {
    ItemsReordered(a, b, PostQuantumEvidence);
  }

  /**
   * For accepted requests the outcome is the same in any order, and so are the failed checks with their
   * multiplicity.
   */
  lemma AssessmentIgnoresOrder(a: VerificationRequest, b: VerificationRequest, isRfc3339: string -> bool)
    requires Reordered(a, b) && Evaluation(a, isRfc3339).Ok?
    ensures Evaluation(b, isRfc3339).Ok?
    ensures var ra, rb := Evaluation(a, isRfc3339).value, Evaluation(b, isRfc3339).value;
            && ra.policyVerdict == rb.policyVerdict
            && ra.classicalOnlyFallback == rb.classicalOnlyFallback
            && ra.lifecycleDesynchronization == rb.lifecycleDesynchronization
            && ra.reason == rb.reason
            && multiset(ra.failedChecks) == multiset(rb.failedChecks)
  {
    ValidityIgnoresOrder(a, b, isRfc3339);
    ValidationExact(a, isRfc3339);
    FailuresIgnoreOrder(a, b);
    LifecycleIgnoresOrder(a, b);
    if !a.stack.verdict.UnsupportedStack? { AggregatesIgnoreOrder(a, b, isRfc3339); }
    SameAssessment(a, b);
  }

  lemma SameAssessment(a: VerificationRequest, b: VerificationRequest)
    requires Reordered(a, b)
    requires !a.stack.verdict.UnsupportedStack? ==> AggregatesOf(a) == AggregatesOf(b)
    requires LifecycleFailed(ScopedItems(a, PostQuantumEvidence)) ==
             LifecycleFailed(ScopedItems(b, PostQuantumEvidence))
    requires multiset(AllFailures(a)) == multiset(AllFailures(b))
    ensures var ra, rb := Assessment(a), Assessment(b);
            && ra.policyVerdict == rb.policyVerdict
            && ra.classicalOnlyFallback == rb.classicalOnlyFallback
            && ra.lifecycleDesynchronization == rb.lifecycleDesynchronization
            && ra.reason == rb.reason
            && multiset(ra.failedChecks) == multiset(rb.failedChecks)
  {
  }
}
