/** The request validator of src/oracle.rs: the loops over hash sets and maps, and the error each reports first. */
module RequestValidation {
  import opened Wrappers
  import opened Sequences
  import opened Model

  datatype HashField =
    | CertificateDer
    | CertificateIssuerEdge
    | StackPath
    | AnchorDer
    | ExpectedAnchorSpki
    | StackAnchorSpki
    | PairPostQuantumDer
    | EvidenceCertificateDer
    | EvidenceIssuerEdge
    | EvidenceArtifactDer

  datatype OracleError =
    | UnsupportedApiVersion(version: string)
    | DuplicateEvidenceId(id: string)
    | DuplicateEvidenceKind(certificateId: string, kind: EvidenceKind)
    | DuplicateCertificateId(id: string)
    | InvalidEndEntityCount
    | TrustAnchorInCertificatePath
    | InvalidCertificatePathOrder
    | SelectedPathMismatch
    | TrustAnchorMismatch
    | InvalidCertificateProperties(certificateId: string)
    | InvalidValidationTime(time: string)
    | ValidationTimeMismatch(requestTime: string, appliedTime: string)
    | UnknownCertificate(evidenceId: string, certificateId: string)
    | PositionMismatch(evidenceId: string, certificateId: string)
    | InvalidSha256Hex(field: HashField)
    | CertificateDerHashMismatch(evidenceId: string, certificateId: string)
    | IssuerEdgeHashMismatch(evidenceId: string, certificateId: string)
    | EvidenceArtifactDerHashMismatch(evidenceId: string)
    | DuplicatePairedAuthentication(operationId: string)
    | InvalidPairedAuthentication(operationId: string)
    | InvalidEvidenceAuthenticationOperation(evidenceId: string)
    | RevocationPolicyMismatch(evidenceId: string)
    | InvalidRevocationEvidence(evidenceId: string)

  /** What a validation step reports: nothing, or its error. */
  type Step = Option<OracleError>

  function When(condition: bool, error: OracleError): Step {
    if condition then Some(error) else None
  }

  // ----- the loop-free checks of the validator -----

  predicate IsSha256Hex(value: string) {
    |value| == 64 && forall c | c in value :: '0' <= c <= '9' || 'a' <= c <= 'f'
  }

  function ValidateSha256Hex(field: HashField, value: Option<string>): Step {
    When(value.Some? && !IsSha256Hex(value.value), InvalidSha256Hex(field))
  }

  function ValidateCertificateProperties(certificate: CertificateNode): Step {
    When(certificate.bindingDesign.AtomicComposite? && !certificate.certificateSignatureScheme.Hybrid?,
         InvalidCertificateProperties(certificate.id))
  }

  predicate MismatchedOptionalHash(left: Option<string>, right: Option<string>) {
    left.Some? && right.Some? && left.value != right.value
  }

  function ValidateTrustAnchor(anchor: TrustAnchor, spkiField: HashField): Step {
    match anchor
    case CertificateDerSha256(derSha256) => ValidateSha256Hex(AnchorDer, Some(derSha256))
    case NameAndSpkiSha256(name, spkiSha256) =>
      ValidateSha256Hex(spkiField, Some(spkiSha256)).Or(When(name == "", TrustAnchorMismatch))
    case LocalIdentifier(identifier) => When(identifier == "", TrustAnchorMismatch)
  }

  function ValidateCertificatePathOrder(path: seq<CertificateNode>): Step {
    if path == [] then Some(InvalidEndEntityCount)
    else When(!path[0].position.EndEntity? || exists i | 1 <= i < |path| :: !path[i].position.Intermediate?,
              InvalidCertificatePathOrder)
  }

  /** The node hashes in path order, if every node has one. */
  function PathHashes(path: seq<CertificateNode>): (r: Option<seq<string>>)
    ensures r.Some? <==> forall c | c in path :: c.derSha256.Some?
    ensures r.Some? ==> |r.value| == |path| && forall i | 0 <= i < |path| :: path[i].derSha256 == Some(r.value[i])
  {
    if path == [] then Some([])
    else
      var rest := PathHashes(path[1..]);
      assert path[0] in path && forall c :: c in path[1..] ==> c in path;
      if path[0].derSha256.Some? && rest.Some? then Some([path[0].derSha256.value] + rest.value) else None
  }

  // ----- lookups -----

  function HasId(id: string): CertificateNode -> bool { (c: CertificateNode) => c.id == id }

  function NodeOf(path: seq<CertificateNode>, id: string): Option<CertificateNode> { Find(path, HasId(id)) }

  function HasOperation(operationId: string): PairedAuthentication -> bool {
    (p: PairedAuthentication) => p.operationId == operationId
  }

  function PairOf(pairs: seq<PairedAuthentication>, operationId: string): Option<PairedAuthentication> {
    Find(pairs, HasOperation(operationId))
  }

  /** m is the map from identifiers to the nodes of the path. */
  ghost predicate IndexesPath(m: map<string, CertificateNode>, path: seq<CertificateNode>) {
    && (forall c | c in path :: c.id in m && m[c.id] == c)
    && (forall id | id in m :: m[id] in path && m[id].id == id)
  }

  ghost predicate IndexesPairs(m: map<string, PairedAuthentication>, pairs: seq<PairedAuthentication>) {
    && (forall p | p in pairs :: p.operationId in m && m[p.operationId] == p)
    && (forall id | id in m :: m[id] in pairs && m[id].operationId == id)
  }

  lemma LookupsAgree(m: map<string, CertificateNode>, path: seq<CertificateNode>, id: string)
    requires IndexesPath(m, path)
    ensures NodeOf(path, id) == if id in m then Some(m[id]) else None
  {
  }

  /** m is the map from identifiers to the first j nodes. */
  ghost predicate IndexesNodes(m: map<string, CertificateNode>, path: seq<CertificateNode>, j: nat)
    requires j <= |path|
  {
    && (forall i :: 0 <= i < j ==> path[i].id in m && m[path[i].id] == path[i])
    && (forall id | id in m :: exists i :: 0 <= i < j && path[i] == m[id] && path[i].id == id)
  }

  ghost predicate IndexesFirst(m: map<string, PairedAuthentication>, pairs: seq<PairedAuthentication>, j: nat)
    requires j <= |pairs|
  {
    && (forall i :: 0 <= i < j ==> pairs[i].operationId in m && m[pairs[i].operationId] == pairs[i])
    && (forall id | id in m :: exists i :: 0 <= i < j && pairs[i] == m[id] && pairs[i].operationId == id)
  }

  lemma AddNode(m: map<string, CertificateNode>, path: seq<CertificateNode>, j: nat)
    requires j < |path| && IndexesNodes(m, path, j)
    ensures path[j].id in m <==> exists i :: 0 <= i < j && path[i].id == path[j].id
    ensures path[j].id !in m ==> IndexesNodes(m[path[j].id := path[j]], path, j + 1)
  {
  }

  lemma AddPair(m: map<string, PairedAuthentication>, pairs: seq<PairedAuthentication>, j: nat)
    requires j < |pairs| && IndexesFirst(m, pairs, j)
    ensures pairs[j].operationId in m <==> exists i :: 0 <= i < j && pairs[i].operationId == pairs[j].operationId
    ensures pairs[j].operationId !in m ==> IndexesFirst(m[pairs[j].operationId := pairs[j]], pairs, j + 1)
  {
  }

  lemma AllNodesIndexed(m: map<string, CertificateNode>, path: seq<CertificateNode>)
    requires IndexesNodes(m, path, |path|)
    ensures IndexesPath(m, path)
  {
  }

  lemma AllPairsIndexed(m: map<string, PairedAuthentication>, pairs: seq<PairedAuthentication>)
    requires IndexesFirst(m, pairs, |pairs|)
    ensures IndexesPairs(m, pairs)
  {
  }

  // ----- what each loop iteration reports, stated on the whole list -----

  ghost function EvidenceIdStep(evidence: seq<Evidence>, j: nat): Step
    requires j < |evidence|
  {
    When(exists i :: 0 <= i < j && evidence[i].id == evidence[j].id, DuplicateEvidenceId(evidence[j].id))
    .Or(When(exists i :: 0 <= i < j && evidence[i].certificateId == evidence[j].certificateId
                         && evidence[i].kind == evidence[j].kind,
             DuplicateEvidenceKind(evidence[j].certificateId, evidence[j].kind)))
  }

  ghost function EvidenceIdSteps(evidence: seq<Evidence>): (steps: seq<Step>)
    ensures |steps| == |evidence|
    ensures forall j :: 0 <= j < |evidence| ==> steps[j] == EvidenceIdStep(evidence, j)
  {
    seq(|evidence|, j requires 0 <= j < |evidence| => EvidenceIdStep(evidence, j))
  }

  ghost function CertificateStep(path: seq<CertificateNode>, j: nat): Step
    requires j < |path|
  {
    ValidateSha256Hex(CertificateDer, path[j].derSha256)
    .Or(ValidateSha256Hex(CertificateIssuerEdge, path[j].issuerEdgeSha256))
    .Or(ValidateCertificateProperties(path[j]))
    .Or(When(path[j].position.TrustAnchorPosition?, TrustAnchorInCertificatePath))
    .Or(When(exists i :: 0 <= i < j && path[i].id == path[j].id, DuplicateCertificateId(path[j].id)))
  }

  ghost function CertificateSteps(path: seq<CertificateNode>): (steps: seq<Step>)
    ensures |steps| == |path|
    ensures forall j :: 0 <= j < |path| ==> steps[j] == CertificateStep(path, j)
  {
    seq(|path|, j requires 0 <= j < |path| => CertificateStep(path, j))
  }

  /** The end entities among the first j nodes. */
  ghost function EndEntitiesBefore(path: seq<CertificateNode>, j: nat): nat
    requires j <= |path|
  {
    if j == 0 then 0 else EndEntitiesBefore(path, j - 1) + if path[j - 1].position.EndEntity? then 1 else 0
  }

  ghost function EndEntityCount(path: seq<CertificateNode>): nat { EndEntitiesBefore(path, |path|) }

  ghost function StackHashSteps(hashes: seq<string>): (steps: seq<Step>)
    ensures |steps| == |hashes|
    ensures forall j :: 0 <= j < |hashes| ==> steps[j] == ValidateSha256Hex(StackPath, Some(hashes[j]))
  {
    seq(|hashes|, j requires 0 <= j < |hashes| => ValidateSha256Hex(StackPath, Some(hashes[j])))
  }

  ghost function StackSelectedPath(request: VerificationRequest): Step {
    FirstError(StackHashSteps(request.stack.certificationPathDerSha256))
    .Or(When(PathHashes(request.certificatePath) != Some(request.stack.certificationPathDerSha256),
             SelectedPathMismatch))
    .Or(ValidateTrustAnchor(request.expectedTrustAnchor, ExpectedAnchorSpki))
    .Or(ValidateTrustAnchor(request.stack.trustAnchor, StackAnchorSpki))
    .Or(When(request.expectedTrustAnchor != request.stack.trustAnchor, TrustAnchorMismatch))
  }

  ghost function PairStep(path: seq<CertificateNode>, pairs: seq<PairedAuthentication>, j: nat): Step
    requires j < |pairs|
  {
    ValidateSha256Hex(PairPostQuantumDer, Some(pairs[j].postQuantumCertificateDerSha256))
    .Or(When(pairs[j].operationId == "" || exists i :: 0 <= i < j && pairs[i].operationId == pairs[j].operationId,
             DuplicatePairedAuthentication(pairs[j].operationId)))
    .Or(When(var node := NodeOf(path, pairs[j].classicalCertificateId);
             node.None? || !node.value.bindingDesign.RelatedCertificate?,
             InvalidPairedAuthentication(pairs[j].operationId)))
  }

  ghost function PairSteps(path: seq<CertificateNode>, pairs: seq<PairedAuthentication>): (steps: seq<Step>)
    ensures |steps| == |pairs|
    ensures forall j :: 0 <= j < |pairs| ==> steps[j] == PairStep(path, pairs, j)
  {
    seq(|pairs|, j requires 0 <= j < |pairs| => PairStep(path, pairs, j))
  }

  /** The pair an item names, if it names one the request declares. */
  function NamedPair(request: VerificationRequest, item: Evidence): Option<PairedAuthentication> {
    if item.authenticationOperationId.None? then None
    else PairOf(request.pairedAuthentications, item.authenticationOperationId.value)
  }

  /** The hash the checked artifact of an item must have. */
  function ExpectedArtifact(request: VerificationRequest, node: CertificateNode, item: Evidence): Option<string> {
    if node.bindingDesign.RelatedCertificate? && item.kind.PostQuantumEvidence? then
      var pair := NamedPair(request, item);
      if pair.None? then None else Some(pair.value.postQuantumCertificateDerSha256)
    else node.derSha256
  }

  /** An earlier item of the same certificate names another operation. */
  ghost predicate ConflictsWithEarlier(request: VerificationRequest, j: nat)
    requires j < |request.evidence|
  {
    exists i :: 0 <= i < j && request.evidence[i].certificateId == request.evidence[j].certificateId
                && request.evidence[i].authenticationOperationId != request.evidence[j].authenticationOperationId
  }

  ghost predicate OperationIsInvalid(request: VerificationRequest, node: CertificateNode, j: nat)
    requires j < |request.evidence|
  {
    var item := request.evidence[j];
    if node.bindingDesign.RelatedCertificate? then
      var pair := NamedPair(request, item);
      || pair.None?
      || pair.value.classicalCertificateId != item.certificateId
      || ConflictsWithEarlier(request, j)
    else item.authenticationOperationId.Some?
  }

  ghost function EvidenceStep(request: VerificationRequest, j: nat): Step
    requires j < |request.evidence|
  {
    var item := request.evidence[j];
    ValidateSha256Hex(EvidenceCertificateDer, item.certificateDerSha256)
    .Or(ValidateSha256Hex(EvidenceIssuerEdge, item.issuerEdgeSha256))
    .Or(ValidateSha256Hex(EvidenceArtifactDer, item.evidenceArtifactDerSha256))
    .Or(match NodeOf(request.certificatePath, item.certificateId)
        case None => Some(UnknownCertificate(item.id, item.certificateId))
        case Some(node) => BoundEvidenceStep(request, node, j))
  }

  ghost function BoundEvidenceStep(request: VerificationRequest, node: CertificateNode, j: nat): Step
    requires j < |request.evidence|
  {
    var item := request.evidence[j];
    When(node.position != item.position, PositionMismatch(item.id, item.certificateId))
    .Or(When(MismatchedOptionalHash(node.derSha256, item.certificateDerSha256),
             CertificateDerHashMismatch(item.id, item.certificateId)))
    .Or(When(MismatchedOptionalHash(node.issuerEdgeSha256, item.issuerEdgeSha256),
             IssuerEdgeHashMismatch(item.id, item.certificateId)))
    .Or(When(OperationIsInvalid(request, node, j), InvalidEvidenceAuthenticationOperation(item.id)))
    .Or(When(MismatchedOptionalHash(ExpectedArtifact(request, node, item), item.evidenceArtifactDerSha256),
             EvidenceArtifactDerHashMismatch(item.id)))
    .Or(When(item.appliedRevocationPolicy != request.revocationPolicy, RevocationPolicyMismatch(item.id)))
    .Or(When(item.revocation.state.Pass? && item.revocationMethod.NoMethod?, InvalidRevocationEvidence(item.id)))
    .Or(When(request.revocationPolicy.mode.NotRequired? && !item.revocation.state.NotApplicable?,
             RevocationPolicyMismatch(item.id)))
  }

  ghost function EvidenceSteps(request: VerificationRequest): (steps: seq<Step>)
    ensures |steps| == |request.evidence|
    ensures forall j :: 0 <= j < |request.evidence| ==> steps[j] == EvidenceStep(request, j)
  {
    seq(|request.evidence|, j requires 0 <= j < |request.evidence| => EvidenceStep(request, j))
  }

  /** The first error in the order of the source, or none; isRfc3339 stands for the timestamp parser. */
  ghost function Validation(request: VerificationRequest, isRfc3339: string -> bool): Step {
    When(request.apiVersion != API_VERSION, UnsupportedApiVersion(request.apiVersion))
    .Or(When(!isRfc3339(request.validationTime), InvalidValidationTime(request.validationTime)))
    .Or(FirstError(EvidenceIdSteps(request.evidence)))
    .Or(FirstError(CertificateSteps(request.certificatePath)))
    .Or(When(EndEntityCount(request.certificatePath) != 1, InvalidEndEntityCount))
    .Or(ValidateCertificatePathOrder(request.certificatePath))
    .Or(StackSelectedPath(request))
    .Or(FirstError(PairSteps(request.certificatePath, request.pairedAuthentications)))
    .Or(FirstError(EvidenceSteps(request)))
    .Or(When(request.stack.validationTime.state.Pass?
             && request.stack.appliedValidationTime != request.validationTime,
             ValidationTimeMismatch(request.validationTime, request.stack.appliedValidationTime)))
  }

  // ----- the imperative validator -----

  method ValidateEvidenceIds(evidence: seq<Evidence>) returns (error: Step)
    ensures error == FirstError(EvidenceIdSteps(evidence))
  {
    ghost var steps := EvidenceIdSteps(evidence);
    var ids: set<string> := {};
    var evidenceKinds: set<(string, EvidenceKind)> := {};
    for j := 0 to |evidence|
      invariant forall i :: 0 <= i < j ==> steps[i].None?
      invariant forall id :: id in ids <==> exists i :: 0 <= i < j && evidence[i].id == id
      invariant forall key :: key in evidenceKinds <==>
                              exists i :: 0 <= i < j && (evidence[i].certificateId, evidence[i].kind) == key
    {
      var item := evidence[j];
      if item.id in ids {
        FirstErrorAt(steps, j);
        return Some(DuplicateEvidenceId(item.id));
      }
      ids := ids + {item.id};
      if (item.certificateId, item.kind) in evidenceKinds {
        FirstErrorAt(steps, j);
        return Some(DuplicateEvidenceKind(item.certificateId, item.kind));
      }
      evidenceKinds := evidenceKinds + {(item.certificateId, item.kind)};
    }
    return None;
  }

  /** One iteration of the certificate loop. */
  method ValidateCertificate(path: seq<CertificateNode>, certificatesById: map<string, CertificateNode>,
                             endEntityCount: nat, j: nat)
    returns (error: Step, newCertificatesById: map<string, CertificateNode>, newEndEntityCount: nat)
    requires j < |path| && IndexesNodes(certificatesById, path, j) && endEntityCount == EndEntitiesBefore(path, j)
    ensures error == CertificateStep(path, j)
    ensures error.None? ==>
              IndexesNodes(newCertificatesById, path, j + 1) && newEndEntityCount == EndEntitiesBefore(path, j + 1)
  {
    var certificate := path[j];
    newCertificatesById := certificatesById;
    newEndEntityCount := endEntityCount;
    error := ValidateSha256Hex(CertificateDer, certificate.derSha256);
    if error.Some? { return; }
    error := ValidateSha256Hex(CertificateIssuerEdge, certificate.issuerEdgeSha256);
    if error.Some? { return; }
    error := ValidateCertificateProperties(certificate);
    if error.Some? { return; }
    AddNode(certificatesById, path, j);
    if certificate.position.EndEntity? { newEndEntityCount := endEntityCount + 1; }
    if certificate.position.TrustAnchorPosition? {
      return Some(TrustAnchorInCertificatePath), newCertificatesById, newEndEntityCount;
    }
    if certificate.id in certificatesById {
      return Some(DuplicateCertificateId(certificate.id)), newCertificatesById, newEndEntityCount;
    }
    newCertificatesById := certificatesById[certificate.id := certificate];
  }

  /** The first j iterations report nothing. */
  ghost predicate NoErrorBefore(path: seq<CertificateNode>, j: nat)
    requires j <= |path|
  {
    forall i :: 0 <= i < j ==> CertificateStep(path, i).None?
  }

  lemma FirstCertificateError(path: seq<CertificateNode>, j: nat)
    requires j < |path| && NoErrorBefore(path, j) && CertificateStep(path, j).Some?
    ensures FirstError(CertificateSteps(path)) == CertificateStep(path, j)
  {
    FirstErrorAt(CertificateSteps(path), j);
  }

  lemma NoCertificateError(path: seq<CertificateNode>)
    requires NoErrorBefore(path, |path|)
    ensures FirstError(CertificateSteps(path)).None?
  {
  }

  method ValidateCertificates(path: seq<CertificateNode>)
    returns (error: Step, certificatesById: map<string, CertificateNode>, endEntityCount: nat)
    ensures error == FirstError(CertificateSteps(path))
    ensures error.None? ==> IndexesPath(certificatesById, path) && endEntityCount == EndEntityCount(path)
  {
    certificatesById, endEntityCount := map[], 0;
    for j := 0 to |path|
      invariant NoErrorBefore(path, j)
      invariant IndexesNodes(certificatesById, path, j)
      invariant endEntityCount == EndEntitiesBefore(path, j)
    {
      error, certificatesById, endEntityCount := ValidateCertificate(path, certificatesById, endEntityCount, j);
      if error.Some? { FirstCertificateError(path, j); return; }
    }
    NoCertificateError(path);
    AllNodesIndexed(certificatesById, path);
    error := None;
  }

  method ValidateStackSelectedPath(request: VerificationRequest) returns (error: Step)
    ensures error == StackSelectedPath(request)
  {
    var hashes := request.stack.certificationPathDerSha256;
    ghost var steps := StackHashSteps(hashes);
    for j := 0 to |hashes|
      invariant forall i :: 0 <= i < j ==> steps[i].None?
    {
      error := ValidateSha256Hex(StackPath, Some(hashes[j]));
      if error.Some? { FirstErrorAt(steps, j); return; }
    }
    var pathHashes := PathHashes(request.certificatePath);
    if pathHashes.None? { return Some(SelectedPathMismatch); }
    if pathHashes.value != hashes { return Some(SelectedPathMismatch); }
    error := ValidateTrustAnchor(request.expectedTrustAnchor, ExpectedAnchorSpki);
    if error.Some? { return; }
    error := ValidateTrustAnchor(request.stack.trustAnchor, StackAnchorSpki);
    if error.Some? { return; }
    if request.expectedTrustAnchor != request.stack.trustAnchor { return Some(TrustAnchorMismatch); }
    return None;
  }

  /** One iteration of the pair loop. */
  method ValidatePair(path: seq<CertificateNode>, certificatesById: map<string, CertificateNode>,
                      pairs: seq<PairedAuthentication>, pairsById: map<string, PairedAuthentication>, j: nat)
    returns (error: Step, newPairsById: map<string, PairedAuthentication>)
    requires j < |pairs|
    requires IndexesPath(certificatesById, path) && IndexesFirst(pairsById, pairs, j)
    ensures error == PairStep(path, pairs, j)
    ensures error.None? ==> IndexesFirst(newPairsById, pairs, j + 1)
  {
    var pair := pairs[j];
    newPairsById := pairsById;
    AddPair(pairsById, pairs, j);
    LookupsAgree(certificatesById, path, pair.classicalCertificateId);
    error := ValidateSha256Hex(PairPostQuantumDer, Some(pair.postQuantumCertificateDerSha256));
    if error.Some? { return; }
    if pair.operationId == "" || pair.operationId in pairsById {
      return Some(DuplicatePairedAuthentication(pair.operationId)), newPairsById;
    }
    newPairsById := pairsById[pair.operationId := pair];
    if pair.classicalCertificateId !in certificatesById
       || !certificatesById[pair.classicalCertificateId].bindingDesign.RelatedCertificate? {
      return Some(InvalidPairedAuthentication(pair.operationId)), newPairsById;
    }
    error := None;
  }

  ghost predicate NoPairErrorBefore(path: seq<CertificateNode>, pairs: seq<PairedAuthentication>, j: nat)
    requires j <= |pairs|
  {
    forall i :: 0 <= i < j ==> PairStep(path, pairs, i).None?
  }

  lemma FirstPairError(path: seq<CertificateNode>, pairs: seq<PairedAuthentication>, j: nat)
    requires j < |pairs| && NoPairErrorBefore(path, pairs, j) && PairStep(path, pairs, j).Some?
    ensures FirstError(PairSteps(path, pairs)) == PairStep(path, pairs, j)
  {
    FirstErrorAt(PairSteps(path, pairs), j);
  }

  lemma NoPairError(path: seq<CertificateNode>, pairs: seq<PairedAuthentication>)
    requires NoPairErrorBefore(path, pairs, |pairs|)
    ensures FirstError(PairSteps(path, pairs)).None?
  {
  }

  method ValidatePairs(path: seq<CertificateNode>, certificatesById: map<string, CertificateNode>,
                       pairs: seq<PairedAuthentication>)
    returns (error: Step, pairsById: map<string, PairedAuthentication>)
    requires IndexesPath(certificatesById, path)
    ensures error == FirstError(PairSteps(path, pairs))
    ensures error.None? ==> IndexesPairs(pairsById, pairs)
  {
    pairsById := map[];
    for j := 0 to |pairs|
      invariant NoPairErrorBefore(path, pairs, j)
      invariant IndexesFirst(pairsById, pairs, j)
    {
      error, pairsById := ValidatePair(path, certificatesById, pairs, pairsById, j);
      if error.Some? { FirstPairError(path, pairs, j); return; }
    }
    NoPairError(path, pairs);
    AllPairsIndexed(pairsById, pairs);
    error := None;
  }

  /** Every operation recorded so far is the one all earlier items of its certificate name. */
  ghost predicate RecordsOperations(operations: map<string, string>, request: VerificationRequest, j: nat)
    requires j <= |request.evidence|
  {
    && (forall i :: 0 <= i < j && RelatedItem(request, request.evidence[i]) ==>
          request.evidence[i].certificateId in operations)
    && (forall i :: 0 <= i < j && request.evidence[i].certificateId in operations ==>
          request.evidence[i].authenticationOperationId == Some(operations[request.evidence[i].certificateId]))
    && (forall id :: id in operations ==>
          exists i :: 0 <= i < j && RelatedItem(request, request.evidence[i])
                      && request.evidence[i].certificateId == id)
  }

  ghost predicate RelatedItem(request: VerificationRequest, item: Evidence) {
    var node := NodeOf(request.certificatePath, item.certificateId);
    node.Some? && node.value.bindingDesign.RelatedCertificate?
  }

  method ValidateEvidence(request: VerificationRequest, certificatesById: map<string, CertificateNode>,
                          pairsById: map<string, PairedAuthentication>)
    returns (error: Step)
    requires IndexesPath(certificatesById, request.certificatePath)
    requires IndexesPairs(pairsById, request.pairedAuthentications)
    ensures error == FirstError(EvidenceSteps(request))
  {
    ghost var steps := EvidenceSteps(request);
    var operations: map<string, string> := map[];
    for j := 0 to |request.evidence|
      invariant forall i :: 0 <= i < j ==> steps[i].None?
      invariant RecordsOperations(operations, request, j)
    {
      error, operations := ValidateEvidenceItem(request, certificatesById, pairsById, operations, j);
      if error.Some? { FirstErrorAt(steps, j); return; }
    }
    return None;
  }

  /** Records the operation an item of a related certificate names, unless an earlier item named another one. */
  method RecordOperation(request: VerificationRequest, operations: map<string, string>, j: nat, operationId: string)
    returns (conflict: bool, newOperations: map<string, string>)
    requires j < |request.evidence| && RelatedItem(request, request.evidence[j])
    requires request.evidence[j].authenticationOperationId == Some(operationId)
    requires RecordsOperations(operations, request, j)
    ensures conflict <==> ConflictsWithEarlier(request, j)
    ensures !conflict ==> RecordsOperations(newOperations, request, j + 1)
  {
    var id := request.evidence[j].certificateId;
    newOperations := operations[id := operationId];
    conflict := id in operations && operations[id] != operationId;
  }

  lemma NothingToRecord(request: VerificationRequest, operations: map<string, string>, j: nat)
    requires j < |request.evidence| && !RelatedItem(request, request.evidence[j])
    requires RecordsOperations(operations, request, j)
    ensures RecordsOperations(operations, request, j + 1)
  {
  }

  /** One iteration of the evidence loop. */
  method ValidateEvidenceItem(request: VerificationRequest, certificatesById: map<string, CertificateNode>,
                              pairsById: map<string, PairedAuthentication>, operations: map<string, string>, j: nat)
    returns (error: Step, newOperations: map<string, string>)
    requires j < |request.evidence|
    requires IndexesPath(certificatesById, request.certificatePath)
    requires IndexesPairs(pairsById, request.pairedAuthentications)
    requires RecordsOperations(operations, request, j)
    ensures error == EvidenceStep(request, j)
    ensures error.None? ==> RecordsOperations(newOperations, request, j + 1)
  {
    var item := request.evidence[j];
    newOperations := operations;
    error := ValidateSha256Hex(EvidenceCertificateDer, item.certificateDerSha256);
    if error.Some? { return; }
    error := ValidateSha256Hex(EvidenceIssuerEdge, item.issuerEdgeSha256);
    if error.Some? { return; }
    error := ValidateSha256Hex(EvidenceArtifactDer, item.evidenceArtifactDerSha256);
    if error.Some? { return; }
    if item.certificateId !in certificatesById {
      return Some(UnknownCertificate(item.id, item.certificateId)), newOperations;
    }
    var certificate := certificatesById[item.certificateId];
    assert NodeOf(request.certificatePath, item.certificateId) == Some(certificate);
    if certificate.position != item.position {
      return Some(PositionMismatch(item.id, item.certificateId)), newOperations;
    }
    if MismatchedOptionalHash(certificate.derSha256, item.certificateDerSha256) {
      return Some(CertificateDerHashMismatch(item.id, item.certificateId)), newOperations;
    }
    if MismatchedOptionalHash(certificate.issuerEdgeSha256, item.issuerEdgeSha256) {
      return Some(IssuerEdgeHashMismatch(item.id, item.certificateId)), newOperations;
    }
    var expectedArtifact := certificate.derSha256;
    if certificate.bindingDesign.RelatedCertificate? {
      if item.authenticationOperationId.None? || item.authenticationOperationId.value !in pairsById {
        return Some(InvalidEvidenceAuthenticationOperation(item.id)), newOperations;
      }
      var operationId := item.authenticationOperationId.value;
      var pair := pairsById[operationId];
      assert NamedPair(request, item) == Some(pair);
      if pair.classicalCertificateId != item.certificateId {
        return Some(InvalidEvidenceAuthenticationOperation(item.id)), newOperations;
      }
      var conflict;
      conflict, newOperations := RecordOperation(request, operations, j, operationId);
      if conflict {
        return Some(InvalidEvidenceAuthenticationOperation(item.id)), newOperations;
      }
      expectedArtifact := match item.kind
        case ClassicalEvidence => certificate.derSha256
        case PostQuantumEvidence => Some(pair.postQuantumCertificateDerSha256);
    } else {
      if item.authenticationOperationId.Some? {
        return Some(InvalidEvidenceAuthenticationOperation(item.id)), newOperations;
      }
      NothingToRecord(request, operations, j);
    }
    assert !OperationIsInvalid(request, certificate, j);
    assert expectedArtifact == ExpectedArtifact(request, certificate, item);
    if MismatchedOptionalHash(expectedArtifact, item.evidenceArtifactDerSha256) {
      return Some(EvidenceArtifactDerHashMismatch(item.id)), newOperations;
    }
    if item.appliedRevocationPolicy != request.revocationPolicy {
      return Some(RevocationPolicyMismatch(item.id)), newOperations;
    }
    if item.revocation.state.Pass? && item.revocationMethod.NoMethod? {
      return Some(InvalidRevocationEvidence(item.id)), newOperations;
    }
    if request.revocationPolicy.mode.NotRequired? && !item.revocation.state.NotApplicable? {
      return Some(RevocationPolicyMismatch(item.id)), newOperations;
    }
    error := None;
  }

  method ValidateRequest(request: VerificationRequest, isRfc3339: string -> bool) returns (error: Step)
    ensures error == Validation(request, isRfc3339)
  {
    if request.apiVersion != API_VERSION { return Some(UnsupportedApiVersion(request.apiVersion)); }
    if !isRfc3339(request.validationTime) { return Some(InvalidValidationTime(request.validationTime)); }
    error := ValidateEvidenceIds(request.evidence);
    if error.Some? { return; }
    var certificatesById, endEntityCount;
    error, certificatesById, endEntityCount := ValidateCertificates(request.certificatePath);
    if error.Some? { return; }
    if endEntityCount != 1 { return Some(InvalidEndEntityCount); }
    error := ValidateCertificatePathOrder(request.certificatePath);
    if error.Some? { return; }
    error := ValidateStackSelectedPath(request);
    if error.Some? { return; }
    var pairsById;
    error, pairsById := ValidatePairs(request.certificatePath, certificatesById, request.pairedAuthentications);
    if error.Some? { return; }
    error := ValidateEvidence(request, certificatesById, pairsById);
    if error.Some? { return; }
    if request.stack.validationTime.state.Pass? && request.stack.appliedValidationTime != request.validationTime {
      return Some(ValidationTimeMismatch(request.validationTime, request.stack.appliedValidationTime));
    }
    return None;
  }
}
