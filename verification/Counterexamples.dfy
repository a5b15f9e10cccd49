/** A request that meets every rule of the validator, has nothing listed, and is rejected. */
module Counterexamples {
  import opened Wrappers
  import opened Model
  import opened Terms
  import opened WellFormedness
  import opened Aggregation
  import opened Oracle
  import opened HybridAcceptance
  import opened FailureAccounting

  function Digest(c: char): string { seq(64, i => c) }

  const Good := CheckResult(CheckState.Pass, Observed)

  const HardFailPolicy := RevocationPolicy(HardFail, None, None)

  function Item(id: string, node: CertificateNode, kind: EvidenceKind, present: CheckResult): Evidence {
    Evidence(id, node.id, node.position, node.derSha256, node.derSha256, node.issuerEdgeSha256, None, kind,
             present, Good, Good, Good, Good, Good, Good, Crl, HardFailPolicy, Good)
  }

  function Request(policy: Policy, scope: PathScope, path: seq<CertificateNode>, hashes: seq<string>,
                   evidence: seq<Evidence>): VerificationRequest
  {
    VerificationRequest(
      API_VERSION, policy, scope, "2026-06-20T00:00:00Z", None, HardFailPolicy,
      StackObservation("test", "1", Accepted, UserSupplied, X509Path, Container, hashes, AdapterSelected,
                       CertificateDerSha256(Digest('e')), "2026-06-20T00:00:00Z", Good),
      CertificateDerSha256(Digest('e')), path, [], evidence)
  }

  const CompositeLeaf := CertificateNode("leaf", EndEntity, Classical, Hybrid, AtomicComposite,
                                         Some(Digest('a')), Some(Digest('c')))

  /** The composite leaf whose classical evidence calls its presence check not applicable. */
  function MisplacedNotApplicable(): VerificationRequest {
    Request(P2RequiredHybrid, EndEntityScope, [CompositeLeaf], [Digest('a')],
            [Item("classical", CompositeLeaf, ClassicalEvidence, CheckResult(NotApplicable, Observed)),
             Item("pq", CompositeLeaf, PostQuantumEvidence, Good)])
  }

  lemma ItemIsWellFormed(request: VerificationRequest, node: CertificateNode, item: Evidence)
    requires node in request.certificatePath && WellFormedNode(node) && !node.bindingDesign.RelatedCertificate?
    requires item == Item(item.id, node, item.kind, item.present)
    requires request.revocationPolicy == HardFailPolicy
    ensures WellFormedItem(request, item)
  {
    assert Bound(request, node, item);
  }

  lemma MisplacedItemsAreWellFormed(item: Evidence)
    requires item in MisplacedNotApplicable().evidence
    ensures WellFormedItem(MisplacedNotApplicable(), item)
  {
    ItemIsWellFormed(MisplacedNotApplicable(), CompositeLeaf, item);
  }

  lemma MisplacedIsWellFormed(isRfc3339: string -> bool)
    requires isRfc3339("2026-06-20T00:00:00Z")
    ensures WellFormed(MisplacedNotApplicable(), isRfc3339)
  {
    var request := MisplacedNotApplicable();
    var evidence := request.evidence;
    assert evidence[0].id[0] == 'c' && evidence[1].id[0] == 'p';
    forall item | item in evidence ensures WellFormedItem(request, item) { MisplacedItemsAreWellFormed(item); }
  }

  lemma MisplacedItemIsInScope(kind: EvidenceKind)
    ensures var request := MisplacedNotApplicable();
            var item := if kind.ClassicalEvidence? then request.evidence[0] else request.evidence[1];
            item in ScopedItems(request, kind) && item.certificateId == CompositeLeaf.id
  {
    var request := MisplacedNotApplicable();
    var item := if kind.ClassicalEvidence? then request.evidence[0] else request.evidence[1];
    assert ItemInScope(request.pathScope)(item) && OfKind(kind)(item);
  }

  lemma MisplacedItemsAreUnlisted(item: Evidence, slot: EvidenceSlot)
    requires item in MisplacedNotApplicable().evidence
    ensures !IsQuestionable(item.Check(slot))
  {
  }

  lemma MisplacedLacksNothing(kind: EvidenceKind, node: CertificateNode)
    ensures !IsAbsent(MisplacedNotApplicable(), node, kind)
  {
    var request := MisplacedNotApplicable();
    var item := if kind.ClassicalEvidence? then request.evidence[0] else request.evidence[1];
    assert IsScopedEvidence(request, item, kind, CompositeLeaf.id);
  }

  lemma MisplacedReportsNothing()
    ensures AllFailures(MisplacedNotApplicable()) == []
  {
    MisplacedHasNothingToReport();
    EmptyListExact(MisplacedNotApplicable());
  }

  lemma MisplacedHasNothingToReport()
    ensures NothingReported(MisplacedNotApplicable())
  {
    var request := MisplacedNotApplicable();
    forall node, kind ensures !IsAbsent(request, node, kind) { MisplacedLacksNothing(kind, node); }
    forall item, slot | item in request.evidence ensures !IsQuestionable(item.Check(slot)) {
      MisplacedItemsAreUnlisted(item, slot);
    }
    assert request.pairedAuthentications == [];
  }

  lemma MisplacedContributes()
    ensures NodeContributes(MisplacedNotApplicable(), CompositeLeaf, Failed)
  {
    var request := MisplacedNotApplicable();
    var item := request.evidence[0];
    MisplacedItemIsInScope(ClassicalEvidence);
    assert SlotState(item, Present, HardFail).Failed?;
    assert ItemShows(CompositeLeaf, item, HardFail, Failed);
    assert NodeShows(request, CompositeLeaf, ClassicalEvidence, Failed);
  }

  lemma RejectedForNode(request: VerificationRequest, node: CertificateNode)
    requires request.policy.P2RequiredHybrid? && !IsUnsupported(request)
    requires node in ScopedCertificates(request) && NodeContributes(request, node, Failed)
    ensures Assessment(request).policyVerdict.Reject?
  {
    RequiredHybridIsMinimum(request);
  }

  lemma MisplacedIsSupported()
    ensures CompositeLeaf in ScopedCertificates(MisplacedNotApplicable()) && !IsUnsupported(MisplacedNotApplicable())
  {
    var request := MisplacedNotApplicable();
    ScopedNodes(request);
    assert InScope(request, CompositeLeaf);
  }

  lemma MisplacedIsRejected()
    ensures Assessment(MisplacedNotApplicable()).policyVerdict.Reject?
  {
    MisplacedContributes();
    MisplacedIsSupported();
    RejectedForNode(MisplacedNotApplicable(), CompositeLeaf);
  }

  /** What the evaluation of an accepted request returns. */
  lemma EvaluatedAs(request: VerificationRequest, isRfc3339: string -> bool)
    requires WellFormed(request, isRfc3339)
    ensures Evaluation(request, isRfc3339) == Ok(Assessment(request))
  {
    ValidationExact(request, isRfc3339);
  }

  lemma RejectedWithEmptyList(request: VerificationRequest, isRfc3339: string -> bool)
    ensures WellFormed(request, isRfc3339) && AllFailures(request) == [] && Assessment(request).policyVerdict.Reject?
            ==>
              var r := Evaluation(request, isRfc3339);
              r.Ok? && r.value.failedChecks == [] && r.value.policyVerdict.Reject?
  {
    if WellFormed(request, isRfc3339) { EvaluatedAs(request, isRfc3339); }
  }

  /** An empty list of failed checks does not mean success: a misplaced inapplicable check rejects unseen. */
  lemma EmptyListMayBeRejected(isRfc3339: string -> bool)
    requires isRfc3339("2026-06-20T00:00:00Z")
    ensures var r := Evaluation(MisplacedNotApplicable(), isRfc3339);
            r.Ok? && r.value.failedChecks == [] && r.value.policyVerdict.Reject?
  {
    MisplacedIsWellFormed(isRfc3339);
    MisplacedReportsNothing();
    MisplacedIsRejected();
    RejectedWithEmptyList(MisplacedNotApplicable(), isRfc3339);
  }
}
