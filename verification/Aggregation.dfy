/** Three-valued aggregation of evidence, design and path observations (src/oracle.rs, from line 640 on). */
module Aggregation {
  import opened Wrappers
  import opened Sequences
  import opened Model
  import opened RequestValidation

  datatype AggregateState = Passed | Failed | Undetermined

  /** Failure dominates; uncertainty dominates success. */
  function Worst(failed: bool, undetermined: bool): AggregateState {
    if failed then Failed else if undetermined then Undetermined else Passed
  }

  function RequiredCheckState(check: CheckResult, allowNotApplicable: bool): AggregateState {
    if check.confidence.IsLow() then Undetermined
    else match check.state
      case Pass => Passed
      case NotApplicable => if allowNotApplicable then Passed else Failed
      case Fail => Failed
      case Indeterminate => Undetermined
      case NotChecked => Undetermined
  }

  function EvidenceBindingState(certificate: CertificateNode, item: Evidence): AggregateState {
    if certificate.derSha256.None? || item.certificateDerSha256.None? || item.evidenceArtifactDerSha256.None? then
      Undetermined
    else if certificate.position.TrustAnchorPosition? then Passed
    else if certificate.issuerEdgeSha256.None? || item.issuerEdgeSha256.None? then Undetermined
    else Passed
  }

  predicate AllowsNotApplicable(slot: EvidenceSlot, mode: RevocationPolicyMode) {
    slot.Binding? || (slot.Revocation? && mode.NotRequired?)
  }

  function SlotState(item: Evidence, slot: EvidenceSlot, mode: RevocationPolicyMode): AggregateState {
    RequiredCheckState(item.Check(slot), AllowsNotApplicable(slot, mode))
  }

  // ----- which states the evidence for required certificates shows, whatever the order -----

  /** Some check of the item, or its binding to the certificate, is in state s. */
  ghost predicate ItemShows(certificate: CertificateNode, item: Evidence, mode: RevocationPolicyMode,
                            s: AggregateState)
  {
    EvidenceBindingState(certificate, item) == s || exists slot :: SlotState(item, slot, mode) == s
  }

  /** The items for a certificate show s; having none is a failure. */
  ghost predicate CertificateShows(certificate: CertificateNode, items: seq<Evidence>, mode: RevocationPolicyMode,
                                   s: AggregateState)
  {
    || (s.Failed? && forall item | item in items :: item.certificateId != certificate.id)
    || exists item | item in items :: item.certificateId == certificate.id && ItemShows(certificate, item, mode, s)
  }

  ghost predicate EvidenceShows(required: seq<CertificateNode>, items: seq<Evidence>, mode: RevocationPolicyMode,
                                s: AggregateState)
  {
    exists certificate | certificate in required :: CertificateShows(certificate, items, mode, s)
  }

  /** The worst state shown by the evidence for any required certificate. */
  ghost function EvidenceWorst(required: seq<CertificateNode>, items: seq<Evidence>, mode: RevocationPolicyMode)
    : AggregateState
  {
    Worst(EvidenceShows(required, items, mode, Failed), EvidenceShows(required, items, mode, Undetermined))
  }

  function IsFor(certificate: CertificateNode): Evidence -> bool {
    (item: Evidence) => item.certificateId == certificate.id
  }

  /** Some listed check is in state s. */
  ghost predicate ChecksShow(checks: seq<NamedCheck>, mode: RevocationPolicyMode, s: AggregateState) {
    exists q :: 0 <= q < |checks|
                && RequiredCheckState(checks[q].check, AllowsNotApplicable(checks[q].slot, mode)) == s
  }

  lemma AllChecksShow(item: Evidence, mode: RevocationPolicyMode, s: AggregateState)
    ensures ChecksShow(item.Checks(), mode, s) <==> exists slot :: SlotState(item, slot, mode) == s
  {
    var checks := item.Checks();
    if slot :| SlotState(item, slot, mode) == s {
      assert NamedCheck(slot, item.Check(slot)) in checks;
    }
    if q :| 0 <= q < |checks|
            && RequiredCheckState(checks[q].check, AllowsNotApplicable(checks[q].slot, mode)) == s {
      assert SlotState(item, checks[q].slot, mode) == s;
    }
  }

  /** The loop over the checks of one item: stops at the first failure. */
  method ChecksState(checks: seq<NamedCheck>, mode: RevocationPolicyMode) returns (state: AggregateState)
    ensures state == Worst(ChecksShow(checks, mode, Failed), ChecksShow(checks, mode, Undetermined))
  {
    var indeterminate := false;
    for k := 0 to |checks|
      invariant forall q :: 0 <= q < k ==>
                  RequiredCheckState(checks[q].check, AllowsNotApplicable(checks[q].slot, mode)) != Failed
      invariant indeterminate <==>
                exists q :: 0 <= q < k
                            && RequiredCheckState(checks[q].check, AllowsNotApplicable(checks[q].slot, mode))
                               == Undetermined
    {
      match RequiredCheckState(checks[k].check, AllowsNotApplicable(checks[k].slot, mode))
      case Passed =>
      case Failed => return Failed;
      case Undetermined => indeterminate := true;
    }
    state := if indeterminate then Undetermined else Passed;
  }

  /** The loop over the items of one certificate: stops at the first failure. */
  method ItemsState(certificate: CertificateNode, items: seq<Evidence>, mode: RevocationPolicyMode)
    returns (state: AggregateState)
    ensures state == Worst(exists q :: 0 <= q < |items| && ItemShows(certificate, items[q], mode, Failed),
                           exists q :: 0 <= q < |items| && ItemShows(certificate, items[q], mode, Undetermined))
  {
    var indeterminate := false;
    for j := 0 to |items|
      invariant forall q :: 0 <= q < j ==> !ItemShows(certificate, items[q], mode, Failed)
      invariant indeterminate <==> exists q :: 0 <= q < j && ItemShows(certificate, items[q], mode, Undetermined)
    {
      AllChecksShow(items[j], mode, Failed);
      AllChecksShow(items[j], mode, Undetermined);
      if EvidenceBindingState(certificate, items[j]).Undetermined? { indeterminate := true; }
      var checksState := ChecksState(items[j].Checks(), mode);
      if checksState.Failed? {
        assert ItemShows(certificate, items[j], mode, Failed);
        return Failed;
      }
      if checksState.Undetermined? { indeterminate := true; }
    }
    state := if indeterminate then Undetermined else Passed;
  }

  /** The loop body for one required certificate. */
  method CertificateState(certificate: CertificateNode, items: seq<Evidence>, mode: RevocationPolicyMode)
    returns (state: AggregateState)
    ensures state == Worst(CertificateShows(certificate, items, mode, Failed),
                           CertificateShows(certificate, items, mode, Undetermined))
  {
    var certificateItems := Filter(items, IsFor(certificate));
    if certificateItems == [] {
      assert forall item | item in items :: !IsFor(certificate)(item);
      return Failed;
    }
    ShownByItsItems(certificate, items, certificateItems, mode);
    state := ItemsState(certificate, certificateItems, mode);
  }

  method EvidenceState(required: seq<CertificateNode>, items: seq<Evidence>, mode: RevocationPolicyMode)
    returns (state: AggregateState)
    ensures state == EvidenceWorst(required, items, mode)
  {
    if required == [] { return Passed; }
    var indeterminate := false;
    for i := 0 to |required|
      invariant forall p :: 0 <= p < i ==> !CertificateShows(required[p], items, mode, Failed)
      invariant indeterminate <==> exists p :: 0 <= p < i && CertificateShows(required[p], items, mode, Undetermined)
    {
      var certificateState := CertificateState(required[i], items, mode);
      match certificateState
      case Passed =>
      case Failed => return Failed;
      case Undetermined => indeterminate := true;
    }
    state := if indeterminate then Undetermined else Passed;
  }

  lemma ShownByItsItems(certificate: CertificateNode, items: seq<Evidence>, certificateItems: seq<Evidence>,
                        mode: RevocationPolicyMode)
    requires certificateItems == Filter(items, IsFor(certificate)) && certificateItems != []
    ensures forall s :: CertificateShows(certificate, items, mode, s) <==>
                        exists q :: 0 <= q < |certificateItems| && ItemShows(certificate, certificateItems[q], mode, s)
  {
    assert certificateItems[0] in items && IsFor(certificate)(certificateItems[0]);
    forall s ensures CertificateShows(certificate, items, mode, s) <==>
                     exists q :: 0 <= q < |certificateItems| && ItemShows(certificate, certificateItems[q], mode, s)
    {
      if item :| item in items && item.certificateId == certificate.id && ItemShows(certificate, item, mode, s) {
        assert IsFor(certificate)(item) && item in certificateItems;
      }
      if q :| 0 <= q < |certificateItems| && ItemShows(certificate, certificateItems[q], mode, s) {
        assert certificateItems[q] in certificateItems;
      }
    }
  }

  // ----- hybrid authentication design -----

  function NamesCertificate(id: string): Evidence -> bool { (item: Evidence) => item.certificateId == id }

  /** The pair named by the first evidence item of the certificate. */
  function FirstNamedPair(certificate: CertificateNode, request: VerificationRequest): Option<PairedAuthentication> {
    match Find(request.evidence, NamesCertificate(certificate.id))
    case None => None
    case Some(item) => NamedPair(request, item)
  }

  function CertificateDesignState(certificate: CertificateNode, request: VerificationRequest): AggregateState {
    if certificate.HasHybridDesign() then Passed
    else if !certificate.bindingDesign.RelatedCertificate? then Failed
    else match FirstNamedPair(certificate, request)
      case None => Failed
      case Some(pair) => RequiredCheckState(pair.sameAuthenticationOperation, false)
  }

  ghost predicate DesignShows(certificates: seq<CertificateNode>, request: VerificationRequest, s: AggregateState) {
    exists certificate | certificate in certificates :: CertificateDesignState(certificate, request) == s
  }

  ghost function DesignWorst(certificates: seq<CertificateNode>, request: VerificationRequest): AggregateState {
    Worst(DesignShows(certificates, request, Failed), DesignShows(certificates, request, Undetermined))
  }

  /** The loop body for one certificate. */
  method DesignStateOf(certificate: CertificateNode, request: VerificationRequest) returns (state: AggregateState)
    ensures state == CertificateDesignState(certificate, request)
  {
    if certificate.HasHybridDesign() { return Passed; }
    if !certificate.bindingDesign.RelatedCertificate? { return Failed; }
    var pair := FirstNamedPair(certificate, request);
    if pair.None? { return Failed; }
    state := RequiredCheckState(pair.value.sameAuthenticationOperation, false);
  }

  method HybridAuthenticationDesignState(certificates: seq<CertificateNode>, request: VerificationRequest)
    returns (state: AggregateState)
    ensures state == DesignWorst(certificates, request)
  {
    var indeterminate := false;
    for i := 0 to |certificates|
      invariant forall p :: 0 <= p < i ==> CertificateDesignState(certificates[p], request) != Failed
      invariant indeterminate <==>
                exists p :: 0 <= p < i && CertificateDesignState(certificates[p], request) == Undetermined
    {
      assert certificates[i] in certificates;
      var designState := DesignStateOf(certificates[i], request);
      match designState
      case Passed =>
      case Failed => return Failed;
      case Undetermined => indeterminate := true;
    }
    state := if indeterminate then Undetermined else Passed;
  }

  // ----- stack, profile and selected path -----

  function StackValidationTimeState(request: VerificationRequest): AggregateState {
    if request.stack.appliedValidationTime != request.validationTime then Undetermined
    else RequiredCheckState(request.stack.validationTime, false)
  }

  /** The stack's contribution; the caller has already returned for unsupported stacks. */
  function StackState(request: VerificationRequest): AggregateState
    requires !request.stack.verdict.UnsupportedStack?
  {
    match request.stack.verdict
    case Accepted => StackValidationTimeState(request)
    case Rejected => Failed
    case Undecided => Undetermined
  }

  function AuthenticationProfileState(profile: ValidationProfile): AggregateState {
    match profile
    case X509Path => Passed
    case WebPkiServer => Passed
    case EvidenceSignature => Undetermined
  }

  /** The adapter reported the path it selected, with an end entity, no anchor, and every hash and issuer edge. */
  ghost predicate SelectedPathIsComplete(request: VerificationRequest) {
    && request.stack.selectedPathSource.AdapterSelected?
    && (exists node | node in request.certificatePath :: node.position.EndEntity?)
    && (forall node | node in request.certificatePath ::
          !node.position.TrustAnchorPosition? && node.derSha256.Some? && node.issuerEdgeSha256.Some?)
  }

  ghost function SelectedPathState(request: VerificationRequest): AggregateState {
    Worst(false, !SelectedPathIsComplete(request))
  }

  method ValidatedPathState(request: VerificationRequest) returns (state: AggregateState)
    ensures state == SelectedPathState(request)
  {
    if !request.stack.selectedPathSource.AdapterSelected? { return Undetermined; }
    var path := request.certificatePath;
    var hasEndEntity := false;
    for i := 0 to |path|
      invariant forall p :: 0 <= p < i ==>
                  !path[p].position.TrustAnchorPosition? && path[p].derSha256.Some? && path[p].issuerEdgeSha256.Some?
      invariant hasEndEntity <==> exists p :: 0 <= p < i && path[p].position.EndEntity?
    {
      match path[i].position
      case EndEntity =>
        hasEndEntity := true;
        if path[i].derSha256.None? || path[i].issuerEdgeSha256.None? {
          assert path[i] in path;
          return Undetermined;
        }
      case Intermediate =>
        if path[i].derSha256.None? || path[i].issuerEdgeSha256.None? {
          assert path[i] in path;
          return Undetermined;
        }
      case TrustAnchorPosition =>
        assert path[i] in path;
        return Undetermined;
    }
    state := if hasEndEntity then Passed else Undetermined;
  }
}
