/** What the validator refuses a request for: every error it reports states a fact about the request. */
module ValidationErrors {
  import opened Wrappers
  import opened Sequences
  import opened Model
  import opened RequestValidation
  import opened WellFormedness

  /** A SHA-256 digest in lower-case hexadecimal. */
  ghost predicate IsDigest(hash: string) { |hash| == 64 && forall c | c in hash :: c in "0123456789abcdef" }

  lemma HexDigitExact(c: char)
    ensures ('0' <= c <= '9' || 'a' <= c <= 'f') <==> c in "0123456789abcdef"
  {
    var digits := "0123456789abcdef";
    if '0' <= c <= '9' { assert digits[c as int - '0' as int] == c; }
    if 'a' <= c <= 'f' { assert digits[c as int - 'a' as int + 10] == c; }
  }

  lemma DigestExact(hash: string)
    ensures IsSha256Hex(hash) <==> IsDigest(hash)
  {
    forall c ensures ('0' <= c <= '9' || 'a' <= c <= 'f') <==> c in "0123456789abcdef" { HexDigitExact(c); }
  }

  // ----- the hashes of a request -----

  ghost predicate AnchorCarries(anchor: TrustAnchor, isDer: bool, hash: string) {
    match anchor
    case CertificateDerSha256(derSha256) => isDer && derSha256 == hash
    case NameAndSpkiSha256(name, spkiSha256) => !isDer && spkiSha256 == hash
    case LocalIdentifier(identifier) => false
  }

  /** The hash stands in that field of the request. */
  ghost predicate Carries(request: VerificationRequest, field: HashField, hash: string) {
    match field
    case CertificateDer => exists node | node in request.certificatePath :: node.derSha256 == Some(hash)
    case CertificateIssuerEdge => exists node | node in request.certificatePath :: node.issuerEdgeSha256 == Some(hash)
    case StackPath => hash in request.stack.certificationPathDerSha256
    case AnchorDer =>
      AnchorCarries(request.expectedTrustAnchor, true, hash) || AnchorCarries(request.stack.trustAnchor, true, hash)
    case ExpectedAnchorSpki => AnchorCarries(request.expectedTrustAnchor, false, hash)
    case StackAnchorSpki => AnchorCarries(request.stack.trustAnchor, false, hash)
    case PairPostQuantumDer =>
      exists pair | pair in request.pairedAuthentications :: pair.postQuantumCertificateDerSha256 == hash
    case EvidenceCertificateDer => exists item | item in request.evidence :: item.certificateDerSha256 == Some(hash)
    case EvidenceIssuerEdge => exists item | item in request.evidence :: item.issuerEdgeSha256 == Some(hash)
    case EvidenceArtifactDer => exists item | item in request.evidence :: item.evidenceArtifactDerSha256 == Some(hash)
  }

  // ----- what each error says -----

  ghost predicate ItemIs(request: VerificationRequest, item: Evidence, evidenceId: string) {
    item in request.evidence && item.id == evidenceId
  }

  ghost predicate BelongsTo(request: VerificationRequest, item: Evidence, node: CertificateNode) {
    node in request.certificatePath && item.certificateId == node.id
  }

  ghost predicate Differ(left: Option<string>, right: Option<string>) {
    left.Some? && right.Some? && left.value != right.value
  }

  ghost predicate HasEmptyName(anchor: TrustAnchor) {
    (anchor.LocalIdentifier? && anchor.identifier == "") || (anchor.NameAndSpkiSha256? && anchor.name == "")
  }

  /** The item of the node names the declared pair. */
  ghost predicate Uses(request: VerificationRequest, item: Evidence, pair: PairedAuthentication) {
    pair in request.pairedAuthentications && item.authenticationOperationId == Some(pair.operationId)
  }

  /** The operation of an item is missing, undeclared, for another certificate, superfluous, or not another item's. */
  ghost predicate OperationIsWrong(request: VerificationRequest, item: Evidence, node: CertificateNode) {
    if node.bindingDesign == RelatedCertificate then
      || (forall pair :: !Uses(request, item, pair))
      || (exists pair :: Uses(request, item, pair) && pair.classicalCertificateId != item.certificateId)
      || exists other | other in request.evidence ::
           && other.certificateId == item.certificateId
           && other.authenticationOperationId != item.authenticationOperationId
    else item.authenticationOperationId.Some?
  }

  /** The artifact of an item is not the certificate, or for post-quantum evidence of a related one, not the pair's. */
  ghost predicate ArtifactIsWrong(request: VerificationRequest, item: Evidence, node: CertificateNode) {
    if node.bindingDesign == RelatedCertificate && item.kind == PostQuantumEvidence then
      exists pair :: Uses(request, item, pair)
                     && Differ(Some(pair.postQuantumCertificateDerSha256), item.evidenceArtifactDerSha256)
    else Differ(node.derSha256, item.evidenceArtifactDerSha256)
  }

  /** The fact about the request that an error reports. */
  ghost predicate IsTrue(request: VerificationRequest, isRfc3339: string -> bool, error: OracleError) {
    var path, items := request.certificatePath, request.evidence;
    match error
    case UnsupportedApiVersion(version) => version == request.apiVersion && version != "hybrid-x509-evidence/v9"
    case InvalidValidationTime(time) => time == request.validationTime && !isRfc3339(time)
    case DuplicateEvidenceId(id) => exists i, j :: 0 <= i < j < |items| && items[i].id == id && items[j].id == id
    case DuplicateEvidenceKind(id, kind) =>
      exists i, j :: 0 <= i < j < |items| && items[i].certificateId == id && items[j].certificateId == id
                     && items[i].kind == kind && items[j].kind == kind
    case InvalidSha256Hex(field) => exists hash :: Carries(request, field, hash) && !IsDigest(hash)
    case InvalidCertificateProperties(id) =>
      exists node | node in path ::
        node.id == id && node.bindingDesign == AtomicComposite && node.certificateSignatureScheme != Hybrid
    case TrustAnchorInCertificatePath => exists node | node in path :: node.position == TrustAnchorPosition
    case DuplicateCertificateId(id) => exists i, j :: 0 <= i < j < |path| && path[i].id == id && path[j].id == id
    case InvalidEndEntityCount => !HasOneEndEntity(path)
    case InvalidCertificatePathOrder =>
      path == [] || path[0].position != EndEntity || exists i :: 1 <= i < |path| && path[i].position != Intermediate
    case SelectedPathMismatch => !IsSelectedPath(path, request.stack.certificationPathDerSha256)
    case TrustAnchorMismatch =>
      || HasEmptyName(request.expectedTrustAnchor)
      || HasEmptyName(request.stack.trustAnchor)
      || request.expectedTrustAnchor != request.stack.trustAnchor
    case DuplicatePairedAuthentication(id) => PairIsRepeated(request.pairedAuthentications, id)
    case InvalidPairedAuthentication(id) =>
      exists pair | pair in request.pairedAuthentications ::
        && pair.operationId == id
        && !IsRelated(path, pair.classicalCertificateId)
    case UnknownCertificate(evidenceId, id) =>
      exists item :: ItemIs(request, item, evidenceId) && item.certificateId == id
                     && forall node | node in path :: node.id != id
    case PositionMismatch(evidenceId, id) =>
      exists item, node :: ItemIs(request, item, evidenceId) && BelongsTo(request, item, node)
                           && node.id == id && node.position != item.position
    case CertificateDerHashMismatch(evidenceId, id) =>
      exists item, node :: ItemIs(request, item, evidenceId) && BelongsTo(request, item, node)
                           && node.id == id && Differ(node.derSha256, item.certificateDerSha256)
    case IssuerEdgeHashMismatch(evidenceId, id) =>
      exists item, node :: ItemIs(request, item, evidenceId) && BelongsTo(request, item, node)
                           && node.id == id && Differ(node.issuerEdgeSha256, item.issuerEdgeSha256)
    case InvalidEvidenceAuthenticationOperation(evidenceId) =>
      exists item, node :: ItemIs(request, item, evidenceId) && BelongsTo(request, item, node)
                           && OperationIsWrong(request, item, node)
    case EvidenceArtifactDerHashMismatch(evidenceId) =>
      exists item, node :: ItemIs(request, item, evidenceId) && BelongsTo(request, item, node)
                           && ArtifactIsWrong(request, item, node)
    case RevocationPolicyMismatch(evidenceId) =>
      exists item :: ItemIs(request, item, evidenceId)
                     && (item.appliedRevocationPolicy != request.revocationPolicy
                         || (request.revocationPolicy.mode == NotRequired && item.revocation.state != NotApplicable))
    case InvalidRevocationEvidence(evidenceId) =>
      exists item :: ItemIs(request, item, evidenceId)
                     && item.revocation.state == CheckState.Pass && item.revocationMethod == NoMethod
    case ValidationTimeMismatch(requestTime, appliedTime) =>
      && requestTime == request.validationTime
      && appliedTime == request.stack.appliedValidationTime
      && requestTime != appliedTime
      && request.stack.validationTime.state == CheckState.Pass
  }

  /** The id is that of a certificate of the path, and of related ones only. */
  ghost predicate IsRelated(path: seq<CertificateNode>, id: string) {
    && (exists node | node in path :: node.id == id)
    && forall node | node in path && node.id == id :: node.bindingDesign == RelatedCertificate
  }

  ghost predicate HasOneEndEntity(path: seq<CertificateNode>) {
    exists i :: 0 <= i < |path| && path[i].position == EndEntity
                && forall j :: 0 <= j < |path| && path[j].position == EndEntity ==> j == i
  }

  ghost predicate IsSelectedPath(path: seq<CertificateNode>, hashes: seq<string>) {
    |hashes| == |path| && forall i :: 0 <= i < |path| ==> path[i].derSha256 == Some(hashes[i])
  }

  ghost predicate PairIsRepeated(pairs: seq<PairedAuthentication>, id: string) {
    || (id == "" && exists pair | pair in pairs :: pair.operationId == "")
    || exists i, j :: 0 <= i < j < |pairs| && pairs[i].operationId == id && pairs[j].operationId == id
  }

  // ----- each phase -----

  lemma {:induction false} FirstErrorIsSome<E>(steps: seq<Option<E>>) returns (j: nat)
    requires FirstError(steps).Some?
    ensures j < |steps| && steps[j] == FirstError(steps)
  {
    j := 0;
    if steps[0].None? {
      j := FirstErrorIsSome(steps[1..]);
      j := j + 1;
    }
  }

  lemma HashErrorIsTrue(request: VerificationRequest, isRfc3339: string -> bool, field: HashField, hash: Option<string>)
    requires ValidateSha256Hex(field, hash).Some? && (hash.Some? ==> Carries(request, field, hash.value))
    ensures IsTrue(request, isRfc3339, ValidateSha256Hex(field, hash).value)
  {
    DigestExact(hash.value);
  }

  lemma EvidenceIdErrorIsTrue(request: VerificationRequest, isRfc3339: string -> bool)
    requires FirstError(EvidenceIdSteps(request.evidence)).Some?
    ensures IsTrue(request, isRfc3339, FirstError(EvidenceIdSteps(request.evidence)).value)
  {
    var j := FirstErrorIsSome(EvidenceIdSteps(request.evidence));
  }

  lemma CertificateErrorIsTrue(request: VerificationRequest, isRfc3339: string -> bool)
    requires FirstError(CertificateSteps(request.certificatePath)).Some?
    ensures IsTrue(request, isRfc3339, FirstError(CertificateSteps(request.certificatePath)).value)
  {
    var path := request.certificatePath;
    var j := FirstErrorIsSome(CertificateSteps(path));
    assert path[j] in path;
    if ValidateSha256Hex(CertificateDer, path[j].derSha256).Some? {
      HashErrorIsTrue(request, isRfc3339, CertificateDer, path[j].derSha256);
    } else if ValidateSha256Hex(CertificateIssuerEdge, path[j].issuerEdgeSha256).Some? {
      HashErrorIsTrue(request, isRfc3339, CertificateIssuerEdge, path[j].issuerEdgeSha256);
    }
  }

  lemma {:induction false} CountIsOne(path: seq<CertificateNode>, j: nat, i: nat)
    requires j <= |path| && i < |path| && path[i].position == EndEntity
    requires forall k :: 0 <= k < |path| && path[k].position == EndEntity ==> k == i
    ensures EndEntitiesBefore(path, j) == if i < j then 1 else 0
  {
    if j > 0 { CountIsOne(path, j - 1, i); }
  }

  lemma EndEntityErrorIsTrue(path: seq<CertificateNode>)
    requires EndEntityCount(path) != 1
    ensures !HasOneEndEntity(path)
  {
    if i :| 0 <= i < |path| && path[i].position == EndEntity
            && forall j :: 0 <= j < |path| && path[j].position == EndEntity ==> j == i {
      CountIsOne(path, |path|, i);
    }
  }

  lemma AnchorErrorIsTrue(request: VerificationRequest, isRfc3339: string -> bool, anchor: TrustAnchor,
                          spkiField: HashField)
    requires (anchor == request.expectedTrustAnchor && spkiField == ExpectedAnchorSpki)
             || (anchor == request.stack.trustAnchor && spkiField == StackAnchorSpki)
    requires ValidateTrustAnchor(anchor, spkiField).Some?
    ensures IsTrue(request, isRfc3339, ValidateTrustAnchor(anchor, spkiField).value)
  {
    match anchor
    case CertificateDerSha256(derSha256) => HashErrorIsTrue(request, isRfc3339, AnchorDer, Some(derSha256));
    case NameAndSpkiSha256(name, spkiSha256) =>
      if ValidateSha256Hex(spkiField, Some(spkiSha256)).Some? {
        HashErrorIsTrue(request, isRfc3339, spkiField, Some(spkiSha256));
      }
    case LocalIdentifier(identifier) =>
  }

  lemma SelectedPathErrorIsTrue(request: VerificationRequest, isRfc3339: string -> bool)
    requires StackSelectedPath(request).Some?
    ensures IsTrue(request, isRfc3339, StackSelectedPath(request).value)
  {
    var path, hashes := request.certificatePath, request.stack.certificationPathDerSha256;
    if FirstError(StackHashSteps(hashes)).Some? {
      var j := FirstErrorIsSome(StackHashSteps(hashes));
      HashErrorIsTrue(request, isRfc3339, StackPath, Some(hashes[j]));
    } else if PathHashes(path) != Some(hashes) {
      SelectedPathExact(path, hashes);
    } else if ValidateTrustAnchor(request.expectedTrustAnchor, ExpectedAnchorSpki).Some? {
      AnchorErrorIsTrue(request, isRfc3339, request.expectedTrustAnchor, ExpectedAnchorSpki);
    } else if ValidateTrustAnchor(request.stack.trustAnchor, StackAnchorSpki).Some? {
      AnchorErrorIsTrue(request, isRfc3339, request.stack.trustAnchor, StackAnchorSpki);
    }
  }

  lemma SelectedPathExact(path: seq<CertificateNode>, hashes: seq<string>)
    ensures IsSelectedPath(path, hashes) <==> PathHashes(path) == Some(hashes)
  {
    if IsSelectedPath(path, hashes) { assert PathHashes(path).value == hashes; }
  }

  lemma PairErrorIsTrue(request: VerificationRequest, isRfc3339: string -> bool)
    requires FirstError(PairSteps(request.certificatePath, request.pairedAuthentications)).Some?
    ensures IsTrue(request, isRfc3339,
                   FirstError(PairSteps(request.certificatePath, request.pairedAuthentications)).value)
  {
    var path, pairs := request.certificatePath, request.pairedAuthentications;
    var j := FirstErrorIsSome(PairSteps(path, pairs));
    var hash := Some(pairs[j].postQuantumCertificateDerSha256);
    assert pairs[j] in pairs;
    if ValidateSha256Hex(PairPostQuantumDer, hash).Some? {
      HashErrorIsTrue(request, isRfc3339, PairPostQuantumDer, hash);
    } else {
      var id := pairs[j].classicalCertificateId;
      var node := NodeOf(path, id);
      if node.Some? { assert HasId(id)(node.value); }
      assert forall other | other in path && node.None? :: !HasId(id)(other);
    }
  }

  lemma ItemErrorIsTrue(request: VerificationRequest, isRfc3339: string -> bool, j: nat)
    requires j < |request.evidence| && EvidenceStep(request, j).Some?
    ensures IsTrue(request, isRfc3339, EvidenceStep(request, j).value)
  {
    var item := request.evidence[j];
    assert ItemIs(request, item, item.id);
    if ValidateSha256Hex(EvidenceCertificateDer, item.certificateDerSha256).Some? {
      HashErrorIsTrue(request, isRfc3339, EvidenceCertificateDer, item.certificateDerSha256);
    } else if ValidateSha256Hex(EvidenceIssuerEdge, item.issuerEdgeSha256).Some? {
      HashErrorIsTrue(request, isRfc3339, EvidenceIssuerEdge, item.issuerEdgeSha256);
    } else if ValidateSha256Hex(EvidenceArtifactDer, item.evidenceArtifactDerSha256).Some? {
      HashErrorIsTrue(request, isRfc3339, EvidenceArtifactDer, item.evidenceArtifactDerSha256);
    } else {
      var found := NodeOf(request.certificatePath, item.certificateId);
      if found.None? {
        assert forall node | node in request.certificatePath :: !HasId(item.certificateId)(node);
      } else {
        assert HasId(item.certificateId)(found.value);
        BoundItemErrorIsTrue(request, isRfc3339, found.value, j);
      }
    }
  }

  lemma NamedIsUsed(request: VerificationRequest, item: Evidence)
    ensures var named := NamedPair(request, item);
            && (named.None? <==> forall pair :: !Uses(request, item, pair))
            && (named.Some? ==> Uses(request, item, named.value))
  {
    var named := NamedPair(request, item);
    if item.authenticationOperationId.Some? {
      var has := HasOperation(item.authenticationOperationId.value);
      if named.Some? { assert has(named.value) && Uses(request, item, named.value); }
      forall pair | Uses(request, item, pair) ensures named.Some? { assert has(pair); }
    }
  }

  lemma OperationErrorIsTrue(request: VerificationRequest, node: CertificateNode, j: nat)
    requires j < |request.evidence| && OperationIsInvalid(request, node, j)
    ensures OperationIsWrong(request, request.evidence[j], node)
  {
    NamedIsUsed(request, request.evidence[j]);
  }

  lemma ArtifactErrorIsTrue(request: VerificationRequest, node: CertificateNode, item: Evidence)
    requires MismatchedOptionalHash(ExpectedArtifact(request, node, item), item.evidenceArtifactDerSha256)
    ensures ArtifactIsWrong(request, item, node)
  {
    NamedIsUsed(request, item);
  }

  lemma MismatchesAreTrue(request: VerificationRequest, isRfc3339: string -> bool, node: CertificateNode,
                          item: Evidence)
    requires item in request.evidence && BelongsTo(request, item, node)
    ensures node.position != item.position ==>
              IsTrue(request, isRfc3339, PositionMismatch(item.id, item.certificateId))
    ensures MismatchedOptionalHash(node.derSha256, item.certificateDerSha256) ==>
              IsTrue(request, isRfc3339, CertificateDerHashMismatch(item.id, item.certificateId))
    ensures MismatchedOptionalHash(node.issuerEdgeSha256, item.issuerEdgeSha256) ==>
              IsTrue(request, isRfc3339, IssuerEdgeHashMismatch(item.id, item.certificateId))
  {
    assert ItemIs(request, item, item.id) && BelongsTo(request, item, node);
  }

  lemma UsesAreTrue(request: VerificationRequest, isRfc3339: string -> bool, node: CertificateNode, j: nat)
    requires j < |request.evidence| && BelongsTo(request, request.evidence[j], node)
    ensures var item := request.evidence[j];
            && (OperationIsInvalid(request, node, j) ==>
                  IsTrue(request, isRfc3339, InvalidEvidenceAuthenticationOperation(item.id)))
            && (MismatchedOptionalHash(ExpectedArtifact(request, node, item), item.evidenceArtifactDerSha256) ==>
                  IsTrue(request, isRfc3339, EvidenceArtifactDerHashMismatch(item.id)))
  {
    var item := request.evidence[j];
    assert ItemIs(request, item, item.id) && BelongsTo(request, item, node);
    if OperationIsInvalid(request, node, j) { OperationErrorIsTrue(request, node, j); }
    if MismatchedOptionalHash(ExpectedArtifact(request, node, item), item.evidenceArtifactDerSha256) {
      ArtifactErrorIsTrue(request, node, item);
    }
  }

  lemma RevocationErrorsAreTrue(request: VerificationRequest, isRfc3339: string -> bool, item: Evidence)
    requires item in request.evidence
    ensures item.appliedRevocationPolicy != request.revocationPolicy
            || (request.revocationPolicy.mode.NotRequired? && !item.revocation.state.NotApplicable?) ==>
              IsTrue(request, isRfc3339, RevocationPolicyMismatch(item.id))
    ensures item.revocation.state.Pass? && item.revocationMethod.NoMethod? ==>
              IsTrue(request, isRfc3339, InvalidRevocationEvidence(item.id))
  {
    assert ItemIs(request, item, item.id);
  }

  /** A bound item's step reports the error of one of its conditions. */
  lemma SomeConditionErred(request: VerificationRequest, node: CertificateNode, j: nat, isTrue: OracleError -> bool)
    requires j < |request.evidence|
    requires var item := request.evidence[j];
             && (node.position != item.position ==> isTrue(PositionMismatch(item.id, item.certificateId)))
             && (MismatchedOptionalHash(node.derSha256, item.certificateDerSha256) ==>
                   isTrue(CertificateDerHashMismatch(item.id, item.certificateId)))
             && (MismatchedOptionalHash(node.issuerEdgeSha256, item.issuerEdgeSha256) ==>
                   isTrue(IssuerEdgeHashMismatch(item.id, item.certificateId)))
             && (OperationIsInvalid(request, node, j) ==> isTrue(InvalidEvidenceAuthenticationOperation(item.id)))
             && (MismatchedOptionalHash(ExpectedArtifact(request, node, item), item.evidenceArtifactDerSha256) ==>
                   isTrue(EvidenceArtifactDerHashMismatch(item.id)))
             && (item.appliedRevocationPolicy != request.revocationPolicy
                 || (request.revocationPolicy.mode.NotRequired? && !item.revocation.state.NotApplicable?) ==>
                   isTrue(RevocationPolicyMismatch(item.id)))
             && (item.revocation.state.Pass? && item.revocationMethod.NoMethod? ==>
                   isTrue(InvalidRevocationEvidence(item.id)))
    ensures Holds(BoundEvidenceStep(request, node, j), isTrue)
  {
  }

  lemma BoundItemErrorIsTrue(request: VerificationRequest, isRfc3339: string -> bool, node: CertificateNode, j: nat)
    requires j < |request.evidence| && BelongsTo(request, request.evidence[j], node)
    requires BoundEvidenceStep(request, node, j).Some?
    ensures IsTrue(request, isRfc3339, BoundEvidenceStep(request, node, j).value)
  {
    MismatchesAreTrue(request, isRfc3339, node, request.evidence[j]);
    UsesAreTrue(request, isRfc3339, node, j);
    RevocationErrorsAreTrue(request, isRfc3339, request.evidence[j]);
    SomeConditionErred(request, node, j, Truth(request, isRfc3339));
    Unwrapped(BoundEvidenceStep(request, node, j), request, isRfc3339);
  }

  lemma EvidenceErrorIsTrue(request: VerificationRequest, isRfc3339: string -> bool)
    requires FirstError(EvidenceSteps(request)).Some?
    ensures IsTrue(request, isRfc3339, FirstError(EvidenceSteps(request)).value)
  {
    var j := FirstErrorIsSome(EvidenceSteps(request));
    ItemErrorIsTrue(request, isRfc3339, j);
  }

  /** The steps of the validator outside its loops. */
  ghost function VersionStep(request: VerificationRequest): Step {
    When(request.apiVersion != API_VERSION, UnsupportedApiVersion(request.apiVersion))
  }

  ghost function TimeStep(request: VerificationRequest, isRfc3339: string -> bool): Step {
    When(!isRfc3339(request.validationTime), InvalidValidationTime(request.validationTime))
  }

  ghost function CountStep(request: VerificationRequest): Step {
    When(EndEntityCount(request.certificatePath) != 1, InvalidEndEntityCount)
  }

  ghost function AppliedTimeStep(request: VerificationRequest): Step {
    When(request.stack.validationTime.state.Pass? && request.stack.appliedValidationTime != request.validationTime,
         ValidationTimeMismatch(request.validationTime, request.stack.appliedValidationTime))
  }

  ghost predicate Holds(step: Step, isTrue: OracleError -> bool) { step.Some? ==> isTrue(step.value) }

  ghost predicate HoldsOfPhases(request: VerificationRequest, isRfc3339: string -> bool, isTrue: OracleError -> bool) {
    && Holds(VersionStep(request), isTrue) && Holds(TimeStep(request, isRfc3339), isTrue)
    && Holds(FirstError(EvidenceIdSteps(request.evidence)), isTrue)
    && Holds(FirstError(CertificateSteps(request.certificatePath)), isTrue)
    && Holds(CountStep(request), isTrue) && Holds(ValidateCertificatePathOrder(request.certificatePath), isTrue)
    && Holds(StackSelectedPath(request), isTrue)
    && Holds(FirstError(PairSteps(request.certificatePath, request.pairedAuthentications)), isTrue)
    && Holds(FirstError(EvidenceSteps(request)), isTrue) && Holds(AppliedTimeStep(request), isTrue)
  }

  /** The validator reports the error of one of its phases. */
  lemma SomePhaseErred(request: VerificationRequest, isRfc3339: string -> bool, isTrue: OracleError -> bool)
    ensures HoldsOfPhases(request, isRfc3339, isTrue) ==> Holds(Validation(request, isRfc3339), isTrue)
  {
  }

  /** What an error says, as a function of the error. */
  ghost function Truth(request: VerificationRequest, isRfc3339: string -> bool): OracleError -> bool {
    (error: OracleError) => IsTrue(request, isRfc3339, error)
  }

  lemma PlainErrorsAreTrue(request: VerificationRequest, isRfc3339: string -> bool)
    ensures var truth := Truth(request, isRfc3339);
            && Holds(VersionStep(request), truth)
            && Holds(TimeStep(request, isRfc3339), truth)
            && Holds(CountStep(request), truth)
            && Holds(AppliedTimeStep(request), truth)
            && Holds(ValidateCertificatePathOrder(request.certificatePath), truth)
  {
    if CountStep(request).Some? { EndEntityErrorIsTrue(request.certificatePath); }
  }

  lemma LoopErrorsAreTrue(request: VerificationRequest, isRfc3339: string -> bool)
    ensures var truth := Truth(request, isRfc3339);
            && Holds(FirstError(EvidenceIdSteps(request.evidence)), truth)
            && Holds(FirstError(CertificateSteps(request.certificatePath)), truth)
            && Holds(StackSelectedPath(request), truth)
            && Holds(FirstError(PairSteps(request.certificatePath, request.pairedAuthentications)), truth)
            && Holds(FirstError(EvidenceSteps(request)), truth)
  {
    if FirstError(EvidenceIdSteps(request.evidence)).Some? { EvidenceIdErrorIsTrue(request, isRfc3339); }
    if FirstError(CertificateSteps(request.certificatePath)).Some? { CertificateErrorIsTrue(request, isRfc3339); }
    if StackSelectedPath(request).Some? { SelectedPathErrorIsTrue(request, isRfc3339); }
    if FirstError(PairSteps(request.certificatePath, request.pairedAuthentications)).Some? {
      PairErrorIsTrue(request, isRfc3339);
    }
    if FirstError(EvidenceSteps(request)).Some? { EvidenceErrorIsTrue(request, isRfc3339); }
  }

  /** Whatever error the validator reports, it is true of the request. */
  lemma ErrorsAreTrue(request: VerificationRequest, isRfc3339: string -> bool)
    ensures var error := Validation(request, isRfc3339); error.Some? ==> IsTrue(request, isRfc3339, error.value)
  {
    PlainErrorsAreTrue(request, isRfc3339);
    LoopErrorsAreTrue(request, isRfc3339);
    SomePhaseErred(request, isRfc3339, Truth(request, isRfc3339));
    Unwrapped(Validation(request, isRfc3339), request, isRfc3339);
  }

  lemma Unwrapped(step: Step, request: VerificationRequest, isRfc3339: string -> bool)
    requires Holds(step, Truth(request, isRfc3339))
    ensures step.Some? ==> IsTrue(request, isRfc3339, step.value)
  {
  }

  /** An accepted request carries only 64-digit lower-case hexadecimal hashes, and is never refused for one. */
  lemma HashesExact(request: VerificationRequest, isRfc3339: string -> bool)
    ensures Validation(request, isRfc3339).None? ==>
              forall field, hash | Carries(request, field, hash) ::
                |hash| == 64 && forall c | c in hash :: c in "0123456789abcdef"
    ensures (forall field, hash | Carries(request, field, hash) ::
               |hash| == 64 && forall c | c in hash :: c in "0123456789abcdef") ==>
              forall field :: Validation(request, isRfc3339) != Some(InvalidSha256Hex(field))
  {
    ValidationExact(request, isRfc3339);
    if Validation(request, isRfc3339).None? {
      forall field, hash | Carries(request, field, hash) ensures IsDigest(hash) {
        AcceptedHashIsDigest(request, isRfc3339, field, hash);
      }
    }
    ErrorsAreTrue(request, isRfc3339);
  }

  lemma AcceptedHashIsDigest(request: VerificationRequest, isRfc3339: string -> bool, field: HashField, hash: string)
    requires WellFormed(request, isRfc3339) && Carries(request, field, hash)
    ensures IsDigest(hash)
  {
    DigestExact(hash);
    match field {
      case StackPath =>
        var i :| 0 <= i < |request.stack.certificationPathDerSha256|
                 && request.stack.certificationPathDerSha256[i] == hash;
        assert WellFormedNode(request.certificatePath[i]);
      case EvidenceCertificateDer =>
        var item :| item in request.evidence && item.certificateDerSha256 == Some(hash);
        assert WellFormedItem(request, item);
      case EvidenceIssuerEdge =>
        var item :| item in request.evidence && item.issuerEdgeSha256 == Some(hash);
        assert WellFormedItem(request, item);
      case EvidenceArtifactDer =>
        var item :| item in request.evidence && item.evidenceArtifactDerSha256 == Some(hash);
        assert WellFormedItem(request, item);
      case PairPostQuantumDer =>
        var pair :| pair in request.pairedAuthentications && pair.postQuantumCertificateDerSha256 == hash;
        assert WellFormedPair(request.certificatePath, pair);
      case CertificateDer => assert WellFormedPath(request.certificatePath, request.stack);
      case CertificateIssuerEdge => assert WellFormedPath(request.certificatePath, request.stack);
      case AnchorDer => assert WellFormedAnchor(request.expectedTrustAnchor);
      case ExpectedAnchorSpki => assert WellFormedAnchor(request.expectedTrustAnchor);
      case StackAnchorSpki => assert WellFormedAnchor(request.stack.trustAnchor);
    }
  }
}
