/** Resolving what was undetermined in a request keeps every definite verdict. */
module MoreKnowledge {
  import opened Wrappers
  import opened Sequences
  import opened Model
  import opened RequestValidation
  import opened Aggregation
  import opened Oracle

  // ----- when one observation only adds knowledge to another -----

  /** Only a check that aggregated to Undetermined may change. */
  ghost predicate CheckResolves(x: CheckResult, y: CheckResult) {
    x == y || RequiredCheckState(x, false).Undetermined?
  }

  ghost predicate HashResolves(x: Option<string>, y: Option<string>) { x == y || x.None? }

  ghost predicate ItemResolves(x: Evidence, y: Evidence) {
    && x.certificateId == y.certificateId
    && x.position == y.position
    && x.kind == y.kind
    && x.authenticationOperationId == y.authenticationOperationId
    && HashResolves(x.certificateDerSha256, y.certificateDerSha256)
    && HashResolves(x.evidenceArtifactDerSha256, y.evidenceArtifactDerSha256)
    && HashResolves(x.issuerEdgeSha256, y.issuerEdgeSha256)
    && forall slot :: CheckResolves(x.Check(slot), y.Check(slot))
  }

  ghost predicate NodeResolves(x: CertificateNode, y: CertificateNode) {
    y == x.(issuerEdgeSha256 := y.issuerEdgeSha256) && HashResolves(x.issuerEdgeSha256, y.issuerEdgeSha256)
  }

  ghost predicate PairResolves(x: PairedAuthentication, y: PairedAuthentication) {
    && y == x.(sameAuthenticationOperation := y.sameAuthenticationOperation)
    && CheckResolves(x.sameAuthenticationOperation, y.sameAuthenticationOperation)
  }

  ghost predicate StackResolves(a: VerificationRequest, b: VerificationRequest) {
    && a.stack.verdict.UnsupportedStack? == b.stack.verdict.UnsupportedStack?
    && (a.stack.validationProfile.EvidenceSignature? || a.stack.validationProfile == b.stack.validationProfile)
    && (!a.stack.selectedPathSource.AdapterSelected? || a.stack.selectedPathSource == b.stack.selectedPathSource)
    && (|| a.stack.verdict.UnsupportedStack?
        || StackState(a).Undetermined?
        || (a.stack.verdict == b.stack.verdict
            && a.stack.appliedValidationTime == b.stack.appliedValidationTime
            && a.stack.validationTime == b.stack.validationTime))
  }

  /** b is a with some undetermined checks, hashes or stack results resolved, in any direction. */
  ghost predicate Resolves(a: VerificationRequest, b: VerificationRequest) {
    && a.policy == b.policy
    && a.pathScope == b.pathScope
    && a.validationTime == b.validationTime
    && a.revocationPolicy.mode.NotRequired? == b.revocationPolicy.mode.NotRequired?
    && StackResolves(a, b)
    && |a.certificatePath| == |b.certificatePath|
    && (forall i | 0 <= i < |a.certificatePath| :: NodeResolves(a.certificatePath[i], b.certificatePath[i]))
    && |a.pairedAuthentications| == |b.pairedAuthentications|
    && (forall i | 0 <= i < |a.pairedAuthentications| ::
          PairResolves(a.pairedAuthentications[i], b.pairedAuthentications[i]))
    && |a.evidence| == |b.evidence|
    && (forall i | 0 <= i < |a.evidence| :: ItemResolves(a.evidence[i], b.evidence[i]))
  }

  /** The information order: an undetermined state may become anything, a definite one stays. */
  predicate Refines(s: AggregateState, t: AggregateState) { s.Undetermined? || s == t }

  // ----- one item, one node -----

  lemma SlotRefines(x: Evidence, y: Evidence, slot: EvidenceSlot, mode: RevocationPolicyMode)
    requires ItemResolves(x, y)
    ensures Refines(SlotState(x, slot, mode), SlotState(y, slot, mode))
  {
    assert CheckResolves(x.Check(slot), y.Check(slot));
  }

  lemma ItemRefines(n: CertificateNode, m: CertificateNode, x: Evidence, y: Evidence, mode: RevocationPolicyMode)
    requires NodeResolves(n, m) && ItemResolves(x, y)
    ensures ItemShows(n, x, mode, Failed) ==> ItemShows(m, y, mode, Failed)
    ensures !ItemShows(n, x, mode, Failed) && !ItemShows(n, x, mode, Undetermined) ==>
              !ItemShows(m, y, mode, Failed) && !ItemShows(m, y, mode, Undetermined)
  {
    forall slot ensures Refines(SlotState(x, slot, mode), SlotState(y, slot, mode)) {
      SlotRefines(x, y, slot, mode);
    }
  }

  ghost predicate IsKept(x: Evidence, resolved: seq<Evidence>) {
    exists y | y in resolved :: ItemResolves(x, y)
  }

  ghost predicate IsNotInvented(items: seq<Evidence>, y: Evidence) {
    exists x | x in items :: ItemResolves(x, y)
  }

  /** Every item is resolved by one of the second list. */
  ghost predicate ItemsKept(items: seq<Evidence>, resolved: seq<Evidence>) {
    forall x {:trigger IsKept(x, resolved)} | x in items :: IsKept(x, resolved)
  }

  /** Every item of the second list resolves one of the first. */
  ghost predicate ItemsNotInvented(items: seq<Evidence>, resolved: seq<Evidence>) {
    forall y {:trigger IsNotInvented(items, y)} | y in resolved :: IsNotInvented(items, y)
  }

  lemma FailingItemStays(n: CertificateNode, m: CertificateNode, items: seq<Evidence>, resolved: seq<Evidence>,
                         mode: RevocationPolicyMode, x: Evidence)
    requires NodeResolves(n, m) && ItemsKept(items, resolved)
    requires x in items && x.certificateId == n.id && ItemShows(n, x, mode, Failed)
    ensures CertificateShows(m, resolved, mode, Failed)
  {
    assert IsKept(x, resolved);
    var y :| y in resolved && ItemResolves(x, y);
    ItemRefines(n, m, x, y, mode);
  }

  lemma NoNewItems(n: CertificateNode, items: seq<Evidence>, resolved: seq<Evidence>)
    requires ItemsNotInvented(items, resolved)
    requires forall x | x in items :: x.certificateId != n.id
    ensures forall y | y in resolved :: y.certificateId != n.id
  {
    forall y | y in resolved ensures y.certificateId != n.id { assert IsNotInvented(items, y); }
  }

  lemma FailureStays(n: CertificateNode, m: CertificateNode, items: seq<Evidence>, resolved: seq<Evidence>,
                     mode: RevocationPolicyMode)
    requires NodeResolves(n, m) && ItemsKept(items, resolved) && ItemsNotInvented(items, resolved)
    requires CertificateShows(n, items, mode, Failed)
    ensures CertificateShows(m, resolved, mode, Failed)
  {
    if x :| x in items && x.certificateId == n.id && ItemShows(n, x, mode, Failed) {
      FailingItemStays(n, m, items, resolved, mode, x);
    } else {
      NoNewItems(n, items, resolved);
    }
  }

  lemma ItemIsKept(n: CertificateNode, items: seq<Evidence>, resolved: seq<Evidence>, x: Evidence)
    requires ItemsKept(items, resolved) && x in items && x.certificateId == n.id
    ensures exists y | y in resolved :: y.certificateId == n.id
  {
    assert IsKept(x, resolved);
    var y :| y in resolved && ItemResolves(x, y);
  }

  lemma CleanItemStays(n: CertificateNode, m: CertificateNode, items: seq<Evidence>, resolved: seq<Evidence>,
                       mode: RevocationPolicyMode, y: Evidence)
    requires NodeResolves(n, m) && ItemsNotInvented(items, resolved)
    requires !CertificateShows(n, items, mode, Failed) && !CertificateShows(n, items, mode, Undetermined)
    requires y in resolved && y.certificateId == m.id
    ensures !ItemShows(m, y, mode, Failed) && !ItemShows(m, y, mode, Undetermined)
  {
    assert IsNotInvented(items, y);
    var x :| x in items && ItemResolves(x, y);
    ItemRefines(n, m, x, y, mode);
  }

  lemma SuccessStays(n: CertificateNode, m: CertificateNode, items: seq<Evidence>, resolved: seq<Evidence>,
                     mode: RevocationPolicyMode)
    requires NodeResolves(n, m) && ItemsKept(items, resolved) && ItemsNotInvented(items, resolved)
    requires !CertificateShows(n, items, mode, Failed) && !CertificateShows(n, items, mode, Undetermined)
    ensures !CertificateShows(m, resolved, mode, Failed) && !CertificateShows(m, resolved, mode, Undetermined)
  {
    var x :| x in items && x.certificateId == n.id;
    ItemIsKept(n, items, resolved, x);
    forall y | y in resolved && y.certificateId == m.id
      ensures !ItemShows(m, y, mode, Failed) && !ItemShows(m, y, mode, Undetermined)
    {
      CleanItemStays(n, m, items, resolved, mode, y);
    }
  }

  // ----- the whole request -----

  lemma ItemMembers(request: VerificationRequest, kind: EvidenceKind)
    ensures forall x :: x in ScopedItems(request, kind) <==>
                        x in request.evidence && request.pathScope.Includes(x.position) && x.kind == kind
  {
    assert forall x :: x in ScopedItems(request, kind) <==>
                       x in request.evidence && ItemInScope(request.pathScope)(x) && OfKind(kind)(x);
  }

  lemma NodeMembers(request: VerificationRequest, kind: EvidenceKind)
    ensures forall n :: n in RequiredCertificates(request, kind) <==>
                        n in request.certificatePath && request.pathScope.Includes(n.position) && n.Requires(kind)
    ensures forall n :: n in ScopedCertificates(request) <==>
                        n in request.certificatePath && request.pathScope.Includes(n.position)
  {
    assert forall n :: n in RequiredCertificates(request, kind) <==>
                       n in request.certificatePath && NodeInScope(request.pathScope)(n) && Requiring(kind)(n);
    assert forall n :: n in ScopedCertificates(request) <==>
                       n in request.certificatePath && NodeInScope(request.pathScope)(n);
  }

  lemma ItemsArePartners(a: VerificationRequest, b: VerificationRequest, kind: EvidenceKind)
    requires Resolves(a, b)
    ensures ItemsKept(ScopedItems(a, kind), ScopedItems(b, kind))
    ensures ItemsNotInvented(ScopedItems(a, kind), ScopedItems(b, kind))
  {
    ItemMembers(a, kind);
    ItemMembers(b, kind);
    forall x | x in ScopedItems(a, kind) ensures IsKept(x, ScopedItems(b, kind)) {
      var i :| 0 <= i < |a.evidence| && a.evidence[i] == x;
      assert ItemResolves(a.evidence[i], b.evidence[i]);
    }
    forall y | y in ScopedItems(b, kind) ensures IsNotInvented(ScopedItems(a, kind), y) {
      var i :| 0 <= i < |b.evidence| && b.evidence[i] == y;
      assert ItemResolves(a.evidence[i], b.evidence[i]);
    }
  }

  ghost predicate NodeIsKept(n: CertificateNode, resolved: seq<CertificateNode>) {
    exists m | m in resolved :: NodeResolves(n, m)
  }

  ghost predicate NodeIsNotInvented(nodes: seq<CertificateNode>, m: CertificateNode) {
    exists n | n in nodes :: NodeResolves(n, m)
  }

  /** Every node is resolved by one of the second list. */
  ghost predicate NodesKept(nodes: seq<CertificateNode>, resolved: seq<CertificateNode>) {
    forall n {:trigger NodeIsKept(n, resolved)} | n in nodes :: NodeIsKept(n, resolved)
  }

  /** Every node of the second list resolves one of the first. */
  ghost predicate NodesNotInvented(nodes: seq<CertificateNode>, resolved: seq<CertificateNode>) {
    forall m {:trigger NodeIsNotInvented(nodes, m)} | m in resolved :: NodeIsNotInvented(nodes, m)
  }

  lemma NodesArePartners(a: VerificationRequest, b: VerificationRequest, kind: EvidenceKind)
    requires Resolves(a, b)
    ensures NodesKept(RequiredCertificates(a, kind), RequiredCertificates(b, kind))
    ensures NodesNotInvented(RequiredCertificates(a, kind), RequiredCertificates(b, kind))
    ensures NodesKept(ScopedCertificates(a), ScopedCertificates(b))
    ensures NodesNotInvented(ScopedCertificates(a), ScopedCertificates(b))
  {
    NodeMembers(a, kind);
    NodeMembers(b, kind);
    forall n | n in ScopedCertificates(a)
      ensures NodeIsKept(n, ScopedCertificates(b))
      ensures n in RequiredCertificates(a, kind) ==> NodeIsKept(n, RequiredCertificates(b, kind))
    {
      var i :| 0 <= i < |a.certificatePath| && a.certificatePath[i] == n;
      assert NodeResolves(a.certificatePath[i], b.certificatePath[i]);
      assert b.certificatePath[i] in b.certificatePath;
    }
    forall m | m in ScopedCertificates(b)
      ensures NodeIsNotInvented(ScopedCertificates(a), m)
      ensures m in RequiredCertificates(b, kind) ==> NodeIsNotInvented(RequiredCertificates(a, kind), m)
    {
      var i :| 0 <= i < |b.certificatePath| && b.certificatePath[i] == m;
      assert NodeResolves(a.certificatePath[i], b.certificatePath[i]);
      assert a.certificatePath[i] in a.certificatePath;
    }
  }

  lemma ShownFailureStays(nodes: seq<CertificateNode>, resolvedNodes: seq<CertificateNode>, items: seq<Evidence>,
                          resolved: seq<Evidence>, mode: RevocationPolicyMode)
    requires NodesKept(nodes, resolvedNodes)
    requires ItemsKept(items, resolved) && ItemsNotInvented(items, resolved)
    requires EvidenceShows(nodes, items, mode, Failed)
    ensures EvidenceShows(resolvedNodes, resolved, mode, Failed)
  {
    var n :| n in nodes && CertificateShows(n, items, mode, Failed);
    assert NodeIsKept(n, resolvedNodes);
    var m :| m in resolvedNodes && NodeResolves(n, m);
    FailureStays(n, m, items, resolved, mode);
  }

  lemma CleanNodeStays(nodes: seq<CertificateNode>, resolvedNodes: seq<CertificateNode>, items: seq<Evidence>,
                       resolved: seq<Evidence>, mode: RevocationPolicyMode, m: CertificateNode)
    requires NodesNotInvented(nodes, resolvedNodes) && m in resolvedNodes
    requires ItemsKept(items, resolved) && ItemsNotInvented(items, resolved)
    requires EvidenceWorst(nodes, items, mode).Passed?
    ensures !CertificateShows(m, resolved, mode, Failed) && !CertificateShows(m, resolved, mode, Undetermined)
  {
    assert NodeIsNotInvented(nodes, m);
    var n :| n in nodes && NodeResolves(n, m);
    SuccessStays(n, m, items, resolved, mode);
  }

  lemma WorstRefines(nodes: seq<CertificateNode>, resolvedNodes: seq<CertificateNode>, items: seq<Evidence>,
                     resolved: seq<Evidence>, mode: RevocationPolicyMode)
    requires NodesKept(nodes, resolvedNodes) && NodesNotInvented(nodes, resolvedNodes)
    requires ItemsKept(items, resolved) && ItemsNotInvented(items, resolved)
    ensures Refines(EvidenceWorst(nodes, items, mode), EvidenceWorst(resolvedNodes, resolved, mode))
  {
    var worst := EvidenceWorst(nodes, items, mode);
    if worst.Failed? {
      ShownFailureStays(nodes, resolvedNodes, items, resolved, mode);
    } else if worst.Passed? {
      forall m | m in resolvedNodes
        ensures !CertificateShows(m, resolved, mode, Failed) && !CertificateShows(m, resolved, mode, Undetermined)
      {
        CleanNodeStays(nodes, resolvedNodes, items, resolved, mode, m);
      }
    }
  }

  /** Of the mode, aggregation sees only whether revocation is required. */
  lemma OnlyRequirednessMatters(nodes: seq<CertificateNode>, items: seq<Evidence>, mode: RevocationPolicyMode,
                                other: RevocationPolicyMode)
    requires mode.NotRequired? == other.NotRequired?
    ensures EvidenceWorst(nodes, items, mode) == EvidenceWorst(nodes, items, other)
  {
    forall item, slot ensures SlotState(item, slot, mode) == SlotState(item, slot, other) {
    }
    forall n, s ensures CertificateShows(n, items, mode, s) <==> CertificateShows(n, items, other, s) {
    }
  }

  lemma KindRefines(a: VerificationRequest, b: VerificationRequest, kind: EvidenceKind)
    requires Resolves(a, b)
    ensures Refines(KindState(a, kind), KindState(b, kind))
    ensures RequiredCertificates(a, kind) == [] <==> RequiredCertificates(b, kind) == []
  {
    NodesArePartners(a, b, kind);
    ItemsArePartners(a, b, kind);
    WorstRefines(RequiredCertificates(a, kind), RequiredCertificates(b, kind), ScopedItems(a, kind),
                 ScopedItems(b, kind), a.revocationPolicy.mode);
    OnlyRequirednessMatters(RequiredCertificates(b, kind), ScopedItems(b, kind), a.revocationPolicy.mode,
                            b.revocationPolicy.mode);
    var nodes, resolved := RequiredCertificates(a, kind), RequiredCertificates(b, kind);
    if nodes != [] { KeptNonEmpty(nodes, resolved); }
    if resolved != [] { InventedNone(nodes, resolved); }
  }

  lemma KeptNonEmpty(nodes: seq<CertificateNode>, resolved: seq<CertificateNode>)
    requires NodesKept(nodes, resolved) && nodes != []
    ensures resolved != []
  {
    assert nodes[0] in nodes && NodeIsKept(nodes[0], resolved);
  }

  lemma InventedNone(nodes: seq<CertificateNode>, resolved: seq<CertificateNode>)
    requires NodesNotInvented(nodes, resolved) && resolved != []
    ensures nodes != []
  {
    assert resolved[0] in resolved && NodeIsNotInvented(nodes, resolved[0]);
  }

  /** The pairs found for a node are both absent, or one resolves the other. */
  lemma FirstNamedPairRefines(a: VerificationRequest, b: VerificationRequest, n: CertificateNode, m: CertificateNode)
    requires Resolves(a, b) && n.id == m.id
    ensures var p, q := FirstNamedPair(n, a), FirstNamedPair(m, b);
            && (p.None? <==> q.None?)
            && (p.Some? ==> CheckResolves(p.value.sameAuthenticationOperation, q.value.sameAuthenticationOperation))
  {
    var names := NamesCertificate(n.id);
    forall k | 0 <= k < |a.evidence| ensures names(a.evidence[k]) == names(b.evidence[k]) {
      assert ItemResolves(a.evidence[k], b.evidence[k]);
    }
    var i := FindAligned(a.evidence, b.evidence, names);
    if Find(a.evidence, names).Some? {
      assert ItemResolves(a.evidence[i], b.evidence[i]);
      var operation := a.evidence[i].authenticationOperationId;
      if operation.Some? { NamedPairRefines(a, b, operation.value); }
    }
  }

  lemma NodeDesignRefines(a: VerificationRequest, b: VerificationRequest, n: CertificateNode, m: CertificateNode)
    requires Resolves(a, b) && NodeResolves(n, m)
    ensures Refines(CertificateDesignState(n, a), CertificateDesignState(m, b))
  {
    FirstNamedPairRefines(a, b, n, m);
  }

  lemma NamedPairRefines(a: VerificationRequest, b: VerificationRequest, operationId: string)
    requires Resolves(a, b)
    ensures var p, q := PairOf(a.pairedAuthentications, operationId), PairOf(b.pairedAuthentications, operationId);
            && (p.None? <==> q.None?)
            && (p.Some? ==> CheckResolves(p.value.sameAuthenticationOperation, q.value.sameAuthenticationOperation))
  {
    var ps, qs := a.pairedAuthentications, b.pairedAuthentications;
    forall k | 0 <= k < |ps| ensures HasOperation(operationId)(ps[k]) == HasOperation(operationId)(qs[k]) {
      assert PairResolves(ps[k], qs[k]);
    }
    var i := FindAligned(ps, qs, HasOperation(operationId));
    if PairOf(ps, operationId).Some? { assert PairResolves(ps[i], qs[i]); }
  }

  lemma FailedDesignStays(a: VerificationRequest, b: VerificationRequest, n: CertificateNode)
    requires Resolves(a, b) && NodesKept(ScopedCertificates(a), ScopedCertificates(b))
    requires n in ScopedCertificates(a) && CertificateDesignState(n, a).Failed?
    ensures DesignShows(ScopedCertificates(b), b, Failed)
  {
    assert NodeIsKept(n, ScopedCertificates(b));
    var m :| m in ScopedCertificates(b) && NodeResolves(n, m);
    NodeDesignRefines(a, b, n, m);
  }

  lemma PassedDesignStays(a: VerificationRequest, b: VerificationRequest, m: CertificateNode)
    requires Resolves(a, b) && NodesNotInvented(ScopedCertificates(a), ScopedCertificates(b))
    requires DesignState(a).Passed? && m in ScopedCertificates(b)
    ensures CertificateDesignState(m, b).Passed?
  {
    assert NodeIsNotInvented(ScopedCertificates(a), m);
    var n :| n in ScopedCertificates(a) && NodeResolves(n, m);
    NodeDesignRefines(a, b, n, m);
  }

  lemma DesignRefines(a: VerificationRequest, b: VerificationRequest)
    requires Resolves(a, b)
    ensures Refines(DesignState(a), DesignState(b))
  {
    NodesArePartners(a, b, ClassicalEvidence);
    if n :| n in ScopedCertificates(a) && CertificateDesignState(n, a) == Failed {
      FailedDesignStays(a, b, n);
    }
    if DesignState(a).Passed? {
      forall m | m in ScopedCertificates(b) ensures CertificateDesignState(m, b).Passed? {
        PassedDesignStays(a, b, m);
      }
    }
  }

  lemma PathRefines(a: VerificationRequest, b: VerificationRequest)
    requires Resolves(a, b)
    ensures Refines(SelectedPathState(a), SelectedPathState(b))
  {
    if SelectedPathIsComplete(a) {
      forall m | m in b.certificatePath
        ensures !m.position.TrustAnchorPosition? && m.derSha256.Some? && m.issuerEdgeSha256.Some?
      {
        var i :| 0 <= i < |b.certificatePath| && b.certificatePath[i] == m;
        assert NodeResolves(a.certificatePath[i], m) && a.certificatePath[i] in a.certificatePath;
      }
      var i :| 0 <= i < |a.certificatePath| && a.certificatePath[i].position.EndEntity?;
      assert NodeResolves(a.certificatePath[i], b.certificatePath[i]) && b.certificatePath[i] in b.certificatePath;
    }
  }

  lemma UnknownStays(nodes: seq<CertificateNode>, resolved: seq<CertificateNode>, n: CertificateNode)
    requires NodesKept(nodes, resolved) && n in nodes && n.HasUnknownCryptoProperty()
    ensures exists m | m in resolved :: m.HasUnknownCryptoProperty()
  {
    assert NodeIsKept(n, resolved);
    var m :| m in resolved && NodeResolves(n, m);
  }

  lemma UnknownWasThere(nodes: seq<CertificateNode>, resolved: seq<CertificateNode>, m: CertificateNode)
    requires NodesNotInvented(nodes, resolved) && m in resolved && m.HasUnknownCryptoProperty()
    ensures exists n | n in nodes :: n.HasUnknownCryptoProperty()
  {
    assert NodeIsNotInvented(nodes, m);
    var n :| n in nodes && NodeResolves(n, m);
  }

  lemma SupportStays(a: VerificationRequest, b: VerificationRequest)
    requires Resolves(a, b)
    ensures IsUnsupported(a) <==> IsUnsupported(b)
  {
    NodesArePartners(a, b, ClassicalEvidence);
    if n :| n in ScopedCertificates(a) && n.HasUnknownCryptoProperty() {
      UnknownStays(ScopedCertificates(a), ScopedCertificates(b), n);
    }
    if m :| m in ScopedCertificates(b) && m.HasUnknownCryptoProperty() {
      UnknownWasThere(ScopedCertificates(a), ScopedCertificates(b), m);
    }
  }

  // ----- the verdicts -----

  /** Every aggregate state keeps what was definite. */
  predicate AggregatesRefine(x: Aggregates, y: Aggregates) {
    && Refines(x.classical, y.classical)
    && Refines(x.postQuantum, y.postQuantum)
    && Refines(x.stack, y.stack)
    && Refines(x.profile, y.profile)
    && Refines(x.path, y.path)
    && Refines(x.design, y.design)
    && x.requiresClassical == y.requiresClassical
  }

  lemma StackRefines(a: VerificationRequest, b: VerificationRequest)
    requires StackResolves(a, b) && !a.stack.verdict.UnsupportedStack? && a.validationTime == b.validationTime
    ensures Refines(StackState(a), StackState(b))
    ensures Refines(AuthenticationProfileState(a.stack.validationProfile),
                    AuthenticationProfileState(b.stack.validationProfile))
  {
  }

  lemma RequestRefines(a: VerificationRequest, b: VerificationRequest)
    requires Resolves(a, b) && !a.stack.verdict.UnsupportedStack?
    ensures AggregatesRefine(AggregatesOf(a), AggregatesOf(b))
  {
    KindRefines(a, b, ClassicalEvidence);
    KindRefines(a, b, PostQuantumEvidence);
    DesignRefines(a, b);
    PathRefines(a, b);
    StackRefines(a, b);
  }

  /** What a verdict may become: a definite one stays, except that optional hybrid may rise from classical to hybrid. */
  predicate MayBecome(policy: Policy, before: PolicyVerdict, after: PolicyVerdict) {
    match before
    case IndeterminateVerdict => !after.Unsupported?
    case ClassicalClaimSetSatisfied =>
      after == before || (policy.P1OptionalHybrid? && after.HybridClaimSetSatisfied?)
    case _ => after == before
  }

  lemma DecisionRefines(policy: Policy, x: Aggregates, y: Aggregates)
    requires !x.profile.Failed? && !x.path.Failed? && !y.profile.Failed? && !y.path.Failed?
    requires AggregatesRefine(x, y)
    ensures MayBecome(policy, Decide(policy, x).verdict, Decide(policy, y).verdict)
  {
  }

  lemma DefiniteVerdictsStay(a: VerificationRequest, b: VerificationRequest)
    requires Resolves(a, b)
    ensures MayBecome(a.policy, Assessment(a).policyVerdict, Assessment(b).policyVerdict)
  {
    SupportStays(a, b);
    if !IsUnsupported(a) {
      RequestRefines(a, b);
      DecisionRefines(a.policy, AggregatesOf(a), AggregatesOf(b));
    }
  }
}
