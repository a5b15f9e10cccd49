/** What the validator accepts, stated as a property of the request with no order of checks in it. */
module WellFormedness {
  import opened Wrappers
  import opened Sequences
  import opened Model
  import opened RequestValidation

  ghost predicate HashOk(hash: Option<string>) { hash.Some? ==> IsSha256Hex(hash.value) }

  ghost predicate Agree(left: Option<string>, right: Option<string>) {
    left.Some? && right.Some? ==> left == right
  }

  function EvidenceId(item: Evidence): string { item.id }

  function EvidenceKey(item: Evidence): (string, EvidenceKind) { (item.certificateId, item.kind) }

  function NodeId(node: CertificateNode): string { node.id }

  function OperationId(pair: PairedAuthentication): string { pair.operationId }

  ghost predicate WellFormedAnchor(anchor: TrustAnchor) {
    match anchor
    case CertificateDerSha256(derSha256) => IsSha256Hex(derSha256)
    case NameAndSpkiSha256(name, spkiSha256) => IsSha256Hex(spkiSha256) && name != ""
    case LocalIdentifier(identifier) => identifier != ""
  }

  ghost predicate WellFormedNode(node: CertificateNode) {
    && HashOk(node.derSha256)
    && HashOk(node.issuerEdgeSha256)
    && (node.bindingDesign.AtomicComposite? ==> node.certificateSignatureScheme.Hybrid?)
  }

  /** One end entity followed by intermediates, each the certificate the stack selected at that place. */
  ghost predicate WellFormedPath(path: seq<CertificateNode>, stack: StackObservation) {
    && path != []
    && path[0].position.EndEntity?
    && (forall i | 1 <= i < |path| :: path[i].position.Intermediate?)
    && (forall node | node in path :: WellFormedNode(node))
    && Distinct(path, NodeId)
    && |stack.certificationPathDerSha256| == |path|
    && (forall i | 0 <= i < |path| :: path[i].derSha256 == Some(stack.certificationPathDerSha256[i]))
  }

  ghost predicate WellFormedPair(path: seq<CertificateNode>, pair: PairedAuthentication) {
    && IsSha256Hex(pair.postQuantumCertificateDerSha256)
    && pair.operationId != ""
    && exists node | node in path :: node.id == pair.classicalCertificateId && node.bindingDesign.RelatedCertificate?
  }

  /** The item belongs to the node, names the pair of a related node, and contradicts no hash. */
  ghost predicate Bound(request: VerificationRequest, node: CertificateNode, item: Evidence) {
    && item.certificateId == node.id
    && item.position == node.position
    && Agree(node.derSha256, item.certificateDerSha256)
    && Agree(node.issuerEdgeSha256, item.issuerEdgeSha256)
    && if node.bindingDesign.RelatedCertificate? then
         exists pair | pair in request.pairedAuthentications ::
           && item.authenticationOperationId == Some(pair.operationId)
           && pair.classicalCertificateId == node.id
           && Agree(item.evidenceArtifactDerSha256,
                    if item.kind.PostQuantumEvidence? then Some(pair.postQuantumCertificateDerSha256)
                    else node.derSha256)
       else
         && item.authenticationOperationId.None?
         && Agree(item.evidenceArtifactDerSha256, node.derSha256)
  }

  ghost predicate WellFormedItem(request: VerificationRequest, item: Evidence) {
    && HashOk(item.certificateDerSha256)
    && HashOk(item.issuerEdgeSha256)
    && HashOk(item.evidenceArtifactDerSha256)
    && (exists node | node in request.certificatePath :: Bound(request, node, item))
    && item.appliedRevocationPolicy == request.revocationPolicy
    && (item.revocation.state.Pass? ==> !item.revocationMethod.NoMethod?)
    && (request.revocationPolicy.mode.NotRequired? ==> item.revocation.state.NotApplicable?)
  }

  /** Items of one certificate name one operation. */
  ghost predicate OneOperationEach(evidence: seq<Evidence>) {
    forall a, b | a in evidence && b in evidence && a.certificateId == b.certificateId ::
      a.authenticationOperationId == b.authenticationOperationId
  }

  ghost predicate WellFormed(request: VerificationRequest, isRfc3339: string -> bool) {
    && request.apiVersion == "hybrid-x509-evidence/v9"
    && isRfc3339(request.validationTime)
    && Distinct(request.evidence, EvidenceId)
    && Distinct(request.evidence, EvidenceKey)
    && WellFormedPath(request.certificatePath, request.stack)
    && WellFormedAnchor(request.expectedTrustAnchor)
    && request.expectedTrustAnchor == request.stack.trustAnchor
    && Distinct(request.pairedAuthentications, OperationId)
    && (forall pair | pair in request.pairedAuthentications :: WellFormedPair(request.certificatePath, pair))
    && (forall item | item in request.evidence :: WellFormedItem(request, item))
    && OneOperationEach(request.evidence)
    && (request.stack.validationTime.state.Pass? ==>
          request.stack.appliedValidationTime == request.validationTime)
  }

  // ----- the two views agree, phase by phase -----

  lemma EvidenceIdsExact(evidence: seq<Evidence>)
    ensures FirstError(EvidenceIdSteps(evidence)).None? <==>
            Distinct(evidence, EvidenceId) && Distinct(evidence, EvidenceKey)
  {
    var steps := EvidenceIdSteps(evidence);
    if FirstError(steps).None? {
      forall i, j | 0 <= i < j < |evidence|
        ensures evidence[i].id != evidence[j].id && EvidenceKey(evidence[i]) != EvidenceKey(evidence[j])
      {
        assert steps[j].None?;
      }
    }
  }

  lemma {:induction false} IntermediatesAreNotCounted(path: seq<CertificateNode>, j: nat)
    requires 1 <= j <= |path| && path[0].position.EndEntity?
    requires forall i | 1 <= i < |path| :: path[i].position.Intermediate?
    ensures EndEntitiesBefore(path, j) == 1
  {
    if j > 1 {
      IntermediatesAreNotCounted(path, j - 1);
    } else {
      assert EndEntitiesBefore(path, 0) == 0;
    }
  }

  ghost function CertificateErrors(request: VerificationRequest): Step {
    FirstError(CertificateSteps(request.certificatePath))
    .Or(When(EndEntityCount(request.certificatePath) != 1, InvalidEndEntityCount))
    .Or(ValidateCertificatePathOrder(request.certificatePath))
  }

  lemma AcceptedIdsAreDistinct(path: seq<CertificateNode>)
    requires FirstError(CertificateSteps(path)).None?
    ensures Distinct(path, NodeId)
  {
    var steps := CertificateSteps(path);
    forall i, j | 0 <= i < j < |path| ensures path[i].id != path[j].id { assert steps[j].None?; }
  }

  lemma AcceptedPathIsWellFormed(request: VerificationRequest)
    requires CertificateErrors(request).None? && StackSelectedPath(request).None?
    ensures WellFormedPath(request.certificatePath, request.stack)
  {
    var path := request.certificatePath;
    var steps := CertificateSteps(path);
    forall i | 0 <= i < |path| ensures WellFormedNode(path[i]) { assert steps[i].None?; }
    AcceptedIdsAreDistinct(path);
    assert PathHashes(path) == Some(request.stack.certificationPathDerSha256);
  }

  lemma WellFormedPathIsAccepted(request: VerificationRequest)
    requires WellFormedPath(request.certificatePath, request.stack)
    ensures CertificateErrors(request).None?
    ensures FirstError(StackHashSteps(request.stack.certificationPathDerSha256)).None?
    ensures PathHashes(request.certificatePath) == Some(request.stack.certificationPathDerSha256)
  {
    var path, hashes := request.certificatePath, request.stack.certificationPathDerSha256;
    var steps := CertificateSteps(path);
    IntermediatesAreNotCounted(path, |path|);
    forall j | 0 <= j < |path| ensures steps[j].None? { assert WellFormedNode(path[j]); }
    assert PathHashes(path).value == hashes;
    forall j | 0 <= j < |hashes| ensures IsSha256Hex(hashes[j]) { assert WellFormedNode(path[j]); }
  }

  lemma PathExact(request: VerificationRequest)
    ensures (CertificateErrors(request).None? && StackSelectedPath(request).None?) <==>
            && WellFormedPath(request.certificatePath, request.stack)
            && WellFormedAnchor(request.expectedTrustAnchor)
            && request.expectedTrustAnchor == request.stack.trustAnchor
  {
    if CertificateErrors(request).None? && StackSelectedPath(request).None? { AcceptedPathIsWellFormed(request); }
    if WellFormedPath(request.certificatePath, request.stack) { WellFormedPathIsAccepted(request); }
  }

  lemma SameNode(path: seq<CertificateNode>, a: CertificateNode, b: CertificateNode)
    requires Distinct(path, NodeId) && a in path && b in path && a.id == b.id
    ensures a == b
  {
  }

  lemma SamePair(pairs: seq<PairedAuthentication>, a: PairedAuthentication, b: PairedAuthentication)
    requires Distinct(pairs, OperationId) && a in pairs && b in pairs && a.operationId == b.operationId
    ensures a == b
  {
  }

  lemma PairsExact(path: seq<CertificateNode>, pairs: seq<PairedAuthentication>)
    requires Distinct(path, NodeId)
    ensures FirstError(PairSteps(path, pairs)).None? <==>
            Distinct(pairs, OperationId) && forall pair | pair in pairs :: WellFormedPair(path, pair)
  {
    var steps := PairSteps(path, pairs);
    if FirstError(steps).None? {
      forall i, j | 0 <= i < j < |pairs| ensures pairs[i].operationId != pairs[j].operationId { assert steps[j].None?; }
      forall j | 0 <= j < |pairs| ensures WellFormedPair(path, pairs[j]) { assert steps[j].None?; }
    }
    if Distinct(pairs, OperationId) && forall pair | pair in pairs :: WellFormedPair(path, pair) {
      forall j | 0 <= j < |pairs| ensures steps[j].None? {
        assert WellFormedPair(path, pairs[j]);
        var node :| node in path && node.id == pairs[j].classicalCertificateId
                    && node.bindingDesign.RelatedCertificate?;
        SameNode(path, node, NodeOf(path, node.id).value);
      }
    }
  }

  lemma ItemStepExact(request: VerificationRequest, j: nat)
    requires j < |request.evidence|
    requires Distinct(request.certificatePath, NodeId) && Distinct(request.pairedAuthentications, OperationId)
    ensures EvidenceStep(request, j).None? ==> WellFormedItem(request, request.evidence[j])
    ensures WellFormedItem(request, request.evidence[j]) && !ConflictsWithEarlier(request, j) ==>
              EvidenceStep(request, j).None?
  {
    var item := request.evidence[j];
    var found := NodeOf(request.certificatePath, item.certificateId);
    if EvidenceStep(request, j).None? {
      var node := found.value;
      assert BoundEvidenceStep(request, node, j).None?;
      assert Bound(request, node, item) by {
        if node.bindingDesign.RelatedCertificate? {
          var pair := NamedPair(request, item).value;
          assert pair in request.pairedAuthentications;
        }
      }
    }
    if WellFormedItem(request, item) && !ConflictsWithEarlier(request, j) {
      var node :| node in request.certificatePath && Bound(request, node, item);
      SameNode(request.certificatePath, node, found.value);
      if node.bindingDesign.RelatedCertificate? {
        var pair :| pair in request.pairedAuthentications && item.authenticationOperationId == Some(pair.operationId)
                    && pair.classicalCertificateId == node.id
                    && Agree(item.evidenceArtifactDerSha256,
                             if item.kind.PostQuantumEvidence? then Some(pair.postQuantumCertificateDerSha256)
                             else node.derSha256);
        SamePair(request.pairedAuthentications, pair, NamedPair(request, item).value);
      }
      assert BoundEvidenceStep(request, node, j).None?;
    }
  }

  lemma OperationsAgree(request: VerificationRequest, i: nat, j: nat)
    requires i < j < |request.evidence| && request.evidence[i].certificateId == request.evidence[j].certificateId
    requires EvidenceStep(request, i).None? && EvidenceStep(request, j).None?
    ensures request.evidence[i].authenticationOperationId == request.evidence[j].authenticationOperationId
  {
    var node := NodeOf(request.certificatePath, request.evidence[j].certificateId).value;
    assert BoundEvidenceStep(request, node, j).None? && BoundEvidenceStep(request, node, i).None?;
  }

  lemma AcceptedEvidenceIsWellFormed(request: VerificationRequest)
    requires Distinct(request.certificatePath, NodeId) && Distinct(request.pairedAuthentications, OperationId)
    requires FirstError(EvidenceSteps(request)).None?
    ensures forall item | item in request.evidence :: WellFormedItem(request, item)
    ensures OneOperationEach(request.evidence)
  {
    var steps := EvidenceSteps(request);
    forall j | 0 <= j < |request.evidence| ensures WellFormedItem(request, request.evidence[j]) {
      assert steps[j].None?;
      ItemStepExact(request, j);
    }
    AcceptedOperationsAgree(request);
  }

  lemma AcceptedOperationsAgree(request: VerificationRequest)
    requires FirstError(EvidenceSteps(request)).None?
    ensures OneOperationEach(request.evidence)
  {
    var evidence, steps := request.evidence, EvidenceSteps(request);
    forall i, j | 0 <= i < j < |evidence| && evidence[i].certificateId == evidence[j].certificateId
      ensures evidence[i].authenticationOperationId == evidence[j].authenticationOperationId
    {
      assert steps[i].None? && steps[j].None?;
      OperationsAgree(request, i, j);
    }
  }

  lemma WellFormedEvidenceIsAccepted(request: VerificationRequest)
    requires Distinct(request.certificatePath, NodeId) && Distinct(request.pairedAuthentications, OperationId)
    requires forall item | item in request.evidence :: WellFormedItem(request, item)
    requires OneOperationEach(request.evidence)
    ensures FirstError(EvidenceSteps(request)).None?
  {
    var steps := EvidenceSteps(request);
    forall j | 0 <= j < |steps| ensures steps[j].None? {
      assert request.evidence[j] in request.evidence;
      assert !ConflictsWithEarlier(request, j);
      ItemStepExact(request, j);
    }
  }

  lemma AcceptedIsWellFormed(request: VerificationRequest, isRfc3339: string -> bool)
    requires Validation(request, isRfc3339).None?
    ensures WellFormed(request, isRfc3339)
  {
    EvidenceIdsExact(request.evidence);
    PathExact(request);
    PairsExact(request.certificatePath, request.pairedAuthentications);
    AcceptedEvidenceIsWellFormed(request);
  }

  lemma WellFormedIsAccepted(request: VerificationRequest, isRfc3339: string -> bool)
    requires WellFormed(request, isRfc3339)
    ensures Validation(request, isRfc3339).None?
  {
    EvidenceIdsExact(request.evidence);
    PathExact(request);
    PairsExact(request.certificatePath, request.pairedAuthentications);
    WellFormedEvidenceIsAccepted(request);
  }

  /** The ordered validator accepts exactly the well-formed requests. */
  lemma ValidationExact(request: VerificationRequest, isRfc3339: string -> bool)
    ensures Validation(request, isRfc3339).None? <==> WellFormed(request, isRfc3339)
  {
    if Validation(request, isRfc3339).None? { AcceptedIsWellFormed(request, isRfc3339); }
    if WellFormed(request, isRfc3339) { WellFormedIsAccepted(request, isRfc3339); }
  }

  /** Neither trust-anchor arm of the evaluation can be reached, and every node hash is the stack's. */
  lemma PathShape(request: VerificationRequest, isRfc3339: string -> bool)
    requires WellFormed(request, isRfc3339)
    ensures forall node | node in request.certificatePath ::
              !node.position.TrustAnchorPosition? && node.derSha256.Some?
    ensures forall node | node in request.certificatePath ::
              node.position.EndEntity? <==> node == request.certificatePath[0]
    ensures PathHashes(request.certificatePath) == Some(request.stack.certificationPathDerSha256)
  {
    WellFormedPathIsAccepted(request);
  }

  // ----- consequences used by the evaluation -----

  lemma NodeIsBound(request: VerificationRequest, isRfc3339: string -> bool, node: CertificateNode, item: Evidence)
    requires WellFormed(request, isRfc3339)
    requires node in request.certificatePath && item in request.evidence && item.certificateId == node.id
    ensures Bound(request, node, item)
  {
    assert WellFormedItem(request, item);
    var bound :| bound in request.certificatePath && Bound(request, bound, item);
    SameNode(request.certificatePath, node, bound);
  }

  lemma PermutedStaysWellFormed(a: VerificationRequest, b: VerificationRequest, isRfc3339: string -> bool)
    requires WellFormed(a, isRfc3339)
    requires multiset(a.evidence) == multiset(b.evidence)
    requires multiset(a.pairedAuthentications) == multiset(b.pairedAuthentications)
    requires b == a.(evidence := b.evidence, pairedAuthentications := b.pairedAuthentications)
    ensures WellFormed(b, isRfc3339)
  {
    SameMembers(a.evidence, b.evidence);
    SameMembers(a.pairedAuthentications, b.pairedAuthentications);
    DistinctKeepsUnderReordering(a.evidence, b.evidence, EvidenceId);
    DistinctKeepsUnderReordering(a.evidence, b.evidence, EvidenceKey);
    DistinctKeepsUnderReordering(a.pairedAuthentications, b.pairedAuthentications, OperationId);
    forall item | item in b.evidence ensures WellFormedItem(b, item) {
      assert WellFormedItem(a, item);
      var node :| node in a.certificatePath && Bound(a, node, item);
      assert Bound(b, node, item);
    }
  }
}
