/** Requests whose revocation evidence comes from the OCSP checker, judged under soft-fail and under hard-fail. */
module RevocationModes {
  import opened Wrappers
  import opened Sequences
  import opened Model
  import opened WellFormedness
  import opened Aggregation
  import opened Oracle
  import opened HybridAcceptance
  import opened MoreKnowledge
  import O = OcspStatus
  import T = OcspTimes

  /** Where the revocation check of an evidence item comes from. */
  datatype Source = Given | Checked(inputs: O.Inputs, policy: O.OcspPolicy)

  /** The observations behind a request: what each item's responder answered at one time. */
  datatype Observations = Observations(lib: O.Library, time: O.I64, sources: seq<Source>)

  ghost function Answer(obs: Observations, i: nat, mode: RevocationPolicyMode): Result<O.OcspStatusResult, O.OcspError>
    requires i < |obs.sources| && obs.sources[i].Checked?
  {
    O.Status(obs.lib, obs.sources[i].inputs, obs.time, obs.sources[i].policy.(mode := mode))
  }

  /** Every checked item got an answer; which calls fail does not depend on the mode. */
  ghost predicate AllAnswered(base: VerificationRequest, obs: Observations) {
    && |obs.sources| == |base.evidence|
    && forall i | 0 <= i < |obs.sources| && obs.sources[i].Checked? :: Answer(obs, i, HardFail).Ok?
  }

  /** The item as the checker fills it in under a mode. */
  ghost function ItemUnder(base: VerificationRequest, obs: Observations, i: nat, mode: RevocationPolicyMode): Evidence
    requires AllAnswered(base, obs) && i < |base.evidence|
  {
    var item := base.evidence[i];
    match obs.sources[i]
    case Given => item.(appliedRevocationPolicy := item.appliedRevocationPolicy.(mode := mode))
    case Checked(inputs, policy) =>
      T.ModesCompared(obs.lib, inputs, obs.time, policy);
      T.ErrorsAreTimeless(obs.lib, inputs, obs.time, obs.time, policy);
      var answer := Answer(obs, i, mode).value;
      item.(appliedRevocationPolicy := answer.appliedRevocationPolicy, revocation := answer.revocation,
            revocationMethod := Ocsp)
  }

  /** The request judged under a mode, in its policy and in every item. */
  ghost function Under(base: VerificationRequest, obs: Observations, mode: RevocationPolicyMode)
    : (request: VerificationRequest)
    requires AllAnswered(base, obs)
    ensures |request.evidence| == |base.evidence|
    ensures forall i | 0 <= i < |base.evidence| :: request.evidence[i] == ItemUnder(base, obs, i, mode)
  {
    base.(revocationPolicy := base.revocationPolicy.(mode := mode),
          evidence := seq(|base.evidence|, i requires 0 <= i < |base.evidence| => ItemUnder(base, obs, i, mode)))
  }

  /** The same item, except that revocation may be undetermined in x and failed in y. */
  ghost predicate Hardened(x: Evidence, y: Evidence) {
    && y == x.(revocation := y.revocation, appliedRevocationPolicy := y.appliedRevocationPolicy)
    && (x.revocation == y.revocation
        || (x.revocation == O.Observe(CheckState.Indeterminate) && y.revocation == O.Observe(CheckState.Fail)))
    && y.appliedRevocationPolicy == x.appliedRevocationPolicy.(mode := HardFail)
    && x.appliedRevocationPolicy == y.appliedRevocationPolicy.(mode := SoftFail)
  }

  lemma ItemsHarden(base: VerificationRequest, obs: Observations, i: nat)
    requires AllAnswered(base, obs) && i < |base.evidence|
    ensures Hardened(Under(base, obs, SoftFail).evidence[i], Under(base, obs, HardFail).evidence[i])
  {
    match obs.sources[i]
    case Given =>
    case Checked(inputs, policy) =>
      T.ModesCompared(obs.lib, inputs, obs.time, policy);
      AnswersAreObserved(obs, i, SoftFail);
      AnswersAreObserved(obs, i, HardFail);
  }

  lemma AnswersAreObserved(obs: Observations, i: nat, mode: RevocationPolicyMode)
    requires i < |obs.sources| && obs.sources[i].Checked? && Answer(obs, i, mode).Ok?
    ensures var r := Answer(obs, i, mode).value;
            && r.revocation == O.Observe(r.revocation.state)
            && (mode.SoftFail? || mode.HardFail? ==>
                  r.revocation.state.Pass? || r.revocation.state.Fail? || r.revocation.state.Indeterminate?)
            && r.appliedRevocationPolicy == O.AppliedPolicy(obs.sources[i].policy.(mode := mode))
  {
  }

  /** Two requests that differ as soft-fail and hard-fail do. */
  ghost predicate HardenedRequest(soft: VerificationRequest, hard: VerificationRequest) {
    && soft.revocationPolicy.mode.SoftFail?
    && hard == soft.(revocationPolicy := soft.revocationPolicy.(mode := HardFail), evidence := hard.evidence)
    && |soft.evidence| == |hard.evidence|
    && forall i | 0 <= i < |soft.evidence| :: Hardened(soft.evidence[i], hard.evidence[i])
  }

  lemma UnderModesHardens(base: VerificationRequest, obs: Observations)
    requires AllAnswered(base, obs)
    ensures HardenedRequest(Under(base, obs, SoftFail), Under(base, obs, HardFail))
  {
    forall i | 0 <= i < |base.evidence|
      ensures Hardened(Under(base, obs, SoftFail).evidence[i], Under(base, obs, HardFail).evidence[i])
    {
      ItemsHarden(base, obs, i);
    }
  }

  // ----- validity does not depend on which of the two modes is used -----

  lemma ItemValidityAgrees(soft: VerificationRequest, hard: VerificationRequest, i: nat)
    requires HardenedRequest(soft, hard) && i < |soft.evidence|
    ensures WellFormedItem(soft, soft.evidence[i]) <==> WellFormedItem(hard, hard.evidence[i])
  {
    var x, y := soft.evidence[i], hard.evidence[i];
    assert Hardened(x, y);
    forall node ensures Bound(soft, node, x) <==> Bound(hard, node, y) {
    }
  }

  lemma ItemsValidityAgrees(soft: VerificationRequest, hard: VerificationRequest)
    requires HardenedRequest(soft, hard)
    ensures (forall item | item in soft.evidence :: WellFormedItem(soft, item))
            <==> (forall item | item in hard.evidence :: WellFormedItem(hard, item))
  {
    forall i | 0 <= i < |soft.evidence|
      ensures WellFormedItem(soft, soft.evidence[i]) <==> WellFormedItem(hard, hard.evidence[i])
    {
      ItemValidityAgrees(soft, hard, i);
    }
    EachByIndex(soft);
    EachByIndex(hard);
  }

  lemma EachByIndex(request: VerificationRequest)
    ensures (forall item | item in request.evidence :: WellFormedItem(request, item))
            <==> (forall i | 0 <= i < |request.evidence| :: WellFormedItem(request, request.evidence[i]))
  {
  }

  /** Two requests that differ only in the mode, there and in every item, and in what revocation was found to be. */
  ghost predicate Remoded(a: VerificationRequest, b: VerificationRequest) {
    && b == a.(revocationPolicy := a.revocationPolicy.(mode := b.revocationPolicy.mode), evidence := b.evidence)
    && |a.evidence| == |b.evidence|
    && forall i | 0 <= i < |a.evidence| :: ItemRemoded(a, b, a.evidence[i], b.evidence[i])
  }

  ghost predicate ItemRemoded(a: VerificationRequest, b: VerificationRequest, x: Evidence, y: Evidence) {
    && y == x.(revocation := y.revocation, appliedRevocationPolicy := y.appliedRevocationPolicy)
    && y.appliedRevocationPolicy == x.appliedRevocationPolicy.(mode := b.revocationPolicy.mode)
    && x.appliedRevocationPolicy.mode == a.revocationPolicy.mode
  }

  lemma HardeningRemodes(soft: VerificationRequest, hard: VerificationRequest)
    requires HardenedRequest(soft, hard)
    ensures Remoded(soft, hard)
  {
    forall i | 0 <= i < |soft.evidence| ensures ItemRemoded(soft, hard, soft.evidence[i], hard.evidence[i]) {
      assert Hardened(soft.evidence[i], hard.evidence[i]);
    }
  }

  lemma FieldsAgree(a: VerificationRequest, b: VerificationRequest, i: nat)
    requires Remoded(a, b) && i < |a.evidence|
    ensures EvidenceId(a.evidence[i]) == EvidenceId(b.evidence[i])
    ensures EvidenceKey(a.evidence[i]) == EvidenceKey(b.evidence[i])
    ensures a.evidence[i].certificateId == b.evidence[i].certificateId
    ensures a.evidence[i].authenticationOperationId == b.evidence[i].authenticationOperationId
  {
    assert ItemRemoded(a, b, a.evidence[i], b.evidence[i]);
  }

  lemma KeysAgree(a: VerificationRequest, b: VerificationRequest)
    requires Remoded(a, b)
    ensures Distinct(a.evidence, EvidenceId) <==> Distinct(b.evidence, EvidenceId)
    ensures Distinct(a.evidence, EvidenceKey) <==> Distinct(b.evidence, EvidenceKey)
  {
    forall i | 0 <= i < |a.evidence|
      ensures EvidenceId(a.evidence[i]) == EvidenceId(b.evidence[i])
      ensures EvidenceKey(a.evidence[i]) == EvidenceKey(b.evidence[i])
    {
      FieldsAgree(a, b, i);
    }
  }

  ghost predicate SameOperation(evidence: seq<Evidence>, i: nat, j: nat)
    requires i < |evidence| && j < |evidence|
  {
    evidence[i].certificateId == evidence[j].certificateId ==>
      evidence[i].authenticationOperationId == evidence[j].authenticationOperationId
  }

  lemma OperationsByIndex(evidence: seq<Evidence>)
    ensures OneOperationEach(evidence) <==>
            forall i, j | 0 <= i < |evidence| && 0 <= j < |evidence| :: SameOperation(evidence, i, j)
  {
    if forall i, j | 0 <= i < |evidence| && 0 <= j < |evidence| :: SameOperation(evidence, i, j) {
      forall a, b | a in evidence && b in evidence && a.certificateId == b.certificateId
        ensures a.authenticationOperationId == b.authenticationOperationId
      {
        var i :| 0 <= i < |evidence| && evidence[i] == a;
        var j :| 0 <= j < |evidence| && evidence[j] == b;
        assert SameOperation(evidence, i, j);
      }
    }
  }

  lemma OperationsAgree(a: VerificationRequest, b: VerificationRequest)
    requires Remoded(a, b)
    ensures OneOperationEach(a.evidence) <==> OneOperationEach(b.evidence)
  {
    OperationsByIndex(a.evidence);
    OperationsByIndex(b.evidence);
    forall i, j | 0 <= i < |a.evidence| && 0 <= j < |a.evidence|
      ensures SameOperation(a.evidence, i, j) <==> SameOperation(b.evidence, i, j)
    {
      FieldsAgree(a, b, i);
      FieldsAgree(a, b, j);
    }
  }

  /** Items apart, validity is the same. */
  lemma ValidityByItems(a: VerificationRequest, b: VerificationRequest, isRfc3339: string -> bool)
    requires Remoded(a, b)
    requires forall item | item in a.evidence :: WellFormedItem(a, item)
    requires forall item | item in b.evidence :: WellFormedItem(b, item)
    ensures WellFormed(a, isRfc3339) <==> WellFormed(b, isRfc3339)
  {
    KeysAgree(a, b);
    OperationsAgree(a, b);
  }

  lemma ValidityIgnoresMode(soft: VerificationRequest, hard: VerificationRequest, isRfc3339: string -> bool)
    requires HardenedRequest(soft, hard)
    ensures WellFormed(soft, isRfc3339) <==> WellFormed(hard, isRfc3339)
  {
    HardeningRemodes(soft, hard);
    ItemsValidityAgrees(soft, hard);
    if forall item | item in soft.evidence :: WellFormedItem(soft, item) { ValidityByItems(soft, hard, isRfc3339); }
  }

  // ----- the aggregate states -----

  lemma HardeningResolves(soft: VerificationRequest, hard: VerificationRequest)
    requires HardenedRequest(soft, hard)
    ensures Resolves(soft, hard)
  {
    forall i | 0 <= i < |soft.evidence| ensures ItemResolves(soft.evidence[i], hard.evidence[i]) {
      assert Hardened(soft.evidence[i], hard.evidence[i]);
    }
  }

  lemma CompleteInBoth(soft: VerificationRequest, hard: VerificationRequest, node: CertificateNode, i: nat)
    requires HardenedRequest(soft, hard) && i < |soft.evidence|
    ensures Complete(soft, node, soft.evidence[i]) <==> Complete(hard, node, hard.evidence[i])
  {
    var x, y := soft.evidence[i], hard.evidence[i];
    assert Hardened(x, y);
    forall slot ensures EstablishedSlot(x, slot, SoftFail) <==> EstablishedSlot(y, slot, HardFail) {
    }
  }

  lemma OneCompleteItemInBoth(soft: VerificationRequest, hard: VerificationRequest, node: CertificateNode,
                              kind: EvidenceKind)
    requires HardenedRequest(soft, hard)
    ensures HasOneCompleteItem(soft, node, kind) <==> HasOneCompleteItem(hard, node, kind)
  {
    forall i | 0 <= i < |soft.evidence|
      ensures Complete(soft, node, soft.evidence[i]) <==> Complete(hard, node, hard.evidence[i])
      ensures IsEvidenceFor(soft.evidence[i], node, kind) <==> IsEvidenceFor(hard.evidence[i], node, kind)
    {
      CompleteInBoth(soft, hard, node, i);
      assert Hardened(soft.evidence[i], hard.evidence[i]);
    }
  }

  /** Hard-fail may turn an undetermined state into a failed one, and nothing else. */
  predicate Hardens(s: AggregateState, t: AggregateState) { s == t || (s.Undetermined? && t.Failed?) }

  lemma KindHardens(soft: VerificationRequest, hard: VerificationRequest, isRfc3339: string -> bool, kind: EvidenceKind)
    requires HardenedRequest(soft, hard) && WellFormed(soft, isRfc3339) && WellFormed(hard, isRfc3339)
    ensures Hardens(KindState(soft, kind), KindState(hard, kind))
  {
    HardeningResolves(soft, hard);
    KindRefines(soft, hard, kind);
    KindPassedExact(soft, isRfc3339, kind);
    KindPassedExact(hard, isRfc3339, kind);
    forall node ensures HasOneCompleteItem(soft, node, kind) <==> HasOneCompleteItem(hard, node, kind) {
      OneCompleteItemInBoth(soft, hard, node, kind);
    }
  }

  lemma FirstNamedPairUnchanged(soft: VerificationRequest, hard: VerificationRequest, node: CertificateNode)
    requires HardenedRequest(soft, hard)
    ensures FirstNamedPair(node, soft) == FirstNamedPair(node, hard)
  {
    HardeningRemodes(soft, hard);
    var names := NamesCertificate(node.id);
    forall k | 0 <= k < |soft.evidence| ensures names(soft.evidence[k]) == names(hard.evidence[k]) {
      FieldsAgree(soft, hard, k);
    }
    var i := FindAligned(soft.evidence, hard.evidence, names);
    if Find(soft.evidence, names).Some? { FieldsAgree(soft, hard, i); }
  }

  lemma NodeDesignUnchanged(soft: VerificationRequest, hard: VerificationRequest, node: CertificateNode)
    requires HardenedRequest(soft, hard)
    ensures CertificateDesignState(node, soft) == CertificateDesignState(node, hard)
  {
    FirstNamedPairUnchanged(soft, hard, node);
  }

  lemma DesignUnchanged(soft: VerificationRequest, hard: VerificationRequest)
    requires HardenedRequest(soft, hard)
    ensures DesignState(soft) == DesignState(hard)
  {
    forall node ensures CertificateDesignState(node, soft) == CertificateDesignState(node, hard) {
      NodeDesignUnchanged(soft, hard, node);
    }
  }

  lemma OtherAggregatesUnchanged(soft: VerificationRequest, hard: VerificationRequest)
    requires HardenedRequest(soft, hard) && !soft.stack.verdict.UnsupportedStack?
    ensures var s, h := AggregatesOf(soft), AggregatesOf(hard);
            && h == s.(classical := h.classical, postQuantum := h.postQuantum)
            && s.classical == KindState(soft, ClassicalEvidence) && h.classical == KindState(hard, ClassicalEvidence)
            && s.postQuantum == KindState(soft, PostQuantumEvidence)
            && h.postQuantum == KindState(hard, PostQuantumEvidence)
  {
    DesignUnchanged(soft, hard);
  }

  lemma AggregatesHarden(soft: VerificationRequest, hard: VerificationRequest, isRfc3339: string -> bool)
    requires HardenedRequest(soft, hard) && WellFormed(soft, isRfc3339) && WellFormed(hard, isRfc3339)
    requires !soft.stack.verdict.UnsupportedStack?
    ensures var s, h := AggregatesOf(soft), AggregatesOf(hard);
            && Hardens(s.classical, h.classical)
            && Hardens(s.postQuantum, h.postQuantum)
            && h == s.(classical := h.classical, postQuantum := h.postQuantum)
  {
    KindHardens(soft, hard, isRfc3339, ClassicalEvidence);
    KindHardens(soft, hard, isRfc3339, PostQuantumEvidence);
    OtherAggregatesUnchanged(soft, hard);
  }

  lemma DecisionHardens(policy: Policy, s: Aggregates, h: Aggregates)
    requires !s.profile.Failed? && !s.path.Failed?
    requires Hardens(s.classical, h.classical) && Hardens(s.postQuantum, h.postQuantum)
    requires h == s.(classical := h.classical, postQuantum := h.postQuantum)
    ensures var soft, hard := Decide(policy, s).verdict, Decide(policy, h).verdict;
            && (hard == soft || (soft.IndeterminateVerdict? && hard.Reject?))
            && Fallback(policy, hard, h) == Fallback(policy, soft, s)
  {
  }

  lemma LifecycleHardens(soft: VerificationRequest, hard: VerificationRequest)
    requires HardenedRequest(soft, hard)
    ensures LifecycleFailed(ScopedItems(soft, PostQuantumEvidence)) ==>
              LifecycleFailed(ScopedItems(hard, PostQuantumEvidence))
  {
    ItemMembers(soft, PostQuantumEvidence);
    ItemMembers(hard, PostQuantumEvidence);
    if x :| x in ScopedItems(soft, PostQuantumEvidence) && (x.validity.state.Fail? || x.revocation.state.Fail?) {
      var i :| 0 <= i < |soft.evidence| && soft.evidence[i] == x;
      assert Hardened(x, hard.evidence[i]);
      assert hard.evidence[i] in ScopedItems(hard, PostQuantumEvidence);
    }
  }

  lemma AssessmentHardens(soft: VerificationRequest, hard: VerificationRequest, isRfc3339: string -> bool)
    requires HardenedRequest(soft, hard) && WellFormed(soft, isRfc3339) && WellFormed(hard, isRfc3339)
    ensures var s, h := Assessment(soft), Assessment(hard);
            && (h.policyVerdict == s.policyVerdict
                || (s.policyVerdict.IndeterminateVerdict? && h.policyVerdict.Reject?))
            && h.classicalOnlyFallback == s.classicalOnlyFallback
            && (s.lifecycleDesynchronization ==> h.lifecycleDesynchronization)
  {
    LifecycleHardens(soft, hard);
    if !IsUnsupported(soft) {
      AggregatesHarden(soft, hard, isRfc3339);
      DecisionHardens(soft.policy, AggregatesOf(soft), AggregatesOf(hard));
    }
  }

  /**
   * Judging the same responses hard-fail instead of soft-fail keeps validity, and changes a verdict only by turning
   * an indeterminate one into a rejection: hybrid and classical are answered under one mode exactly when under the
   * other.
   */
  lemma HardFailOnlyRejectsMore(base: VerificationRequest, obs: Observations, isRfc3339: string -> bool)
    requires AllAnswered(base, obs)
    ensures var soft, hard := Evaluation(Under(base, obs, SoftFail), isRfc3339),
                              Evaluation(Under(base, obs, HardFail), isRfc3339);
            && (soft.Ok? <==> hard.Ok?)
            && (soft.Ok? ==>
                  && (hard.value.policyVerdict == soft.value.policyVerdict
                      || (soft.value.policyVerdict.IndeterminateVerdict? && hard.value.policyVerdict.Reject?))
                  && hard.value.classicalOnlyFallback == soft.value.classicalOnlyFallback
                  && (soft.value.lifecycleDesynchronization ==> hard.value.lifecycleDesynchronization))
  {
    var soft, hard := Under(base, obs, SoftFail), Under(base, obs, HardFail);
    UnderModesHardens(base, obs);
    ValidityIgnoresMode(soft, hard, isRfc3339);
    ValidationExact(soft, isRfc3339);
    ValidationExact(hard, isRfc3339);
    if WellFormed(soft, isRfc3339) { AssessmentHardens(soft, hard, isRfc3339); }
  }

  /** The revocation of item i reads not applicable when it is not required. */
  ghost predicate IsWaived(base: VerificationRequest, obs: Observations, i: nat)
    requires AllAnswered(base, obs) && i < |base.evidence|
  {
    match obs.sources[i]
    case Given => base.evidence[i].revocation.state.NotApplicable?
    case Checked(inputs, policy) => inputs.basic.Some?
  }

  lemma WaivedExact(base: VerificationRequest, obs: Observations, i: nat)
    requires AllAnswered(base, obs) && i < |base.evidence|
    ensures Under(base, obs, NotRequired).evidence[i].revocation.state.NotApplicable? <==> IsWaived(base, obs, i)
  {
    if obs.sources[i].Checked? {
      T.ModesCompared(obs.lib, obs.sources[i].inputs, obs.time, obs.sources[i].policy);
    }
  }

  lemma WaivingRemodes(base: VerificationRequest, obs: Observations)
    requires AllAnswered(base, obs)
    ensures Remoded(Under(base, obs, SoftFail), Under(base, obs, NotRequired))
  {
    var soft, off := Under(base, obs, SoftFail), Under(base, obs, NotRequired);
    forall i | 0 <= i < |soft.evidence| ensures ItemRemoded(soft, off, soft.evidence[i], off.evidence[i]) {
      if obs.sources[i].Checked? {
        T.ModesCompared(obs.lib, obs.sources[i].inputs, obs.time, obs.sources[i].policy);
        AnswersAreObserved(obs, i, SoftFail);
        AnswersAreObserved(obs, i, NotRequired);
      }
    }
  }

  lemma RemodedBinding(a: VerificationRequest, b: VerificationRequest, x: Evidence, y: Evidence)
    requires b == a.(revocationPolicy := a.revocationPolicy.(mode := b.revocationPolicy.mode), evidence := b.evidence)
    requires ItemRemoded(a, b, x, y)
    ensures (exists node | node in a.certificatePath :: Bound(a, node, x)) <==>
            exists node | node in b.certificatePath :: Bound(b, node, y)
    ensures x.appliedRevocationPolicy == a.revocationPolicy <==> y.appliedRevocationPolicy == b.revocationPolicy
  {
    forall node ensures Bound(a, node, x) <==> Bound(b, node, y) {
    }
  }

  lemma WaivedItemExact(base: VerificationRequest, obs: Observations, i: nat)
    requires AllAnswered(base, obs) && i < |base.evidence|
    ensures var soft, off := Under(base, obs, SoftFail), Under(base, obs, NotRequired);
            WellFormedItem(off, off.evidence[i]) <==> WellFormedItem(soft, soft.evidence[i]) && IsWaived(base, obs, i)
  {
    var soft, off := Under(base, obs, SoftFail), Under(base, obs, NotRequired);
    WaivingRemodes(base, obs);
    WaivedExact(base, obs, i);
    assert ItemRemoded(soft, off, soft.evidence[i], off.evidence[i]);
    RemodedBinding(soft, off, soft.evidence[i], off.evidence[i]);
  }

  lemma WaivedItemsExact(base: VerificationRequest, obs: Observations)
    requires AllAnswered(base, obs)
    ensures var soft, off := Under(base, obs, SoftFail), Under(base, obs, NotRequired);
            (forall item | item in off.evidence :: WellFormedItem(off, item)) <==>
            && (forall item | item in soft.evidence :: WellFormedItem(soft, item))
            && forall i | 0 <= i < |base.evidence| :: IsWaived(base, obs, i)
  {
    var soft, off := Under(base, obs, SoftFail), Under(base, obs, NotRequired);
    EachByIndex(soft);
    EachByIndex(off);
    forall i | 0 <= i < |base.evidence|
      ensures WellFormedItem(off, off.evidence[i]) <==> WellFormedItem(soft, soft.evidence[i]) && IsWaived(base, obs, i)
    {
      WaivedItemExact(base, obs, i);
    }
  }

  lemma WaivedValidityExact(base: VerificationRequest, obs: Observations, isRfc3339: string -> bool)
    requires AllAnswered(base, obs)
    ensures WellFormed(Under(base, obs, NotRequired), isRfc3339) <==>
            && WellFormed(Under(base, obs, SoftFail), isRfc3339)
            && forall i | 0 <= i < |base.evidence| :: IsWaived(base, obs, i)
  {
    var soft, off := Under(base, obs, SoftFail), Under(base, obs, NotRequired);
    WaivedItemsExact(base, obs);
    WaivingRemodes(base, obs);
    if forall item | item in off.evidence :: WellFormedItem(off, item) { ValidityByItems(soft, off, isRfc3339); }
  }

  /**
   * When revocation is not required, a request is accepted exactly if it is accepted under soft-fail, every response
   * was successful, and every item that did not come from a response calls its revocation not applicable.
   */
  lemma NotRequiredAcceptsExact(base: VerificationRequest, obs: Observations, isRfc3339: string -> bool)
    requires AllAnswered(base, obs)
    ensures Evaluation(Under(base, obs, NotRequired), isRfc3339).Ok? <==>
            && Evaluation(Under(base, obs, SoftFail), isRfc3339).Ok?
            && forall i | 0 <= i < |base.evidence| :: IsWaived(base, obs, i)
  {
    ValidationExact(Under(base, obs, NotRequired), isRfc3339);
    ValidationExact(Under(base, obs, SoftFail), isRfc3339);
    WaivedValidityExact(base, obs, isRfc3339);
  }

  /** An unsuccessful response still answers indeterminate then, and refuses the whole request. */
  lemma NotRequiredRefusesUnavailable(base: VerificationRequest, obs: Observations, i: nat, isRfc3339: string -> bool)
    requires AllAnswered(base, obs) && i < |base.evidence| && obs.sources[i].Checked?
    ensures var item := Under(base, obs, NotRequired).evidence[i];
            item.revocation.state.NotApplicable? <==> obs.sources[i].inputs.basic.Some?
    ensures obs.sources[i].inputs.basic.None? ==> Evaluation(Under(base, obs, NotRequired), isRfc3339).Err?
  {
    WaivedExact(base, obs, i);
    NotRequiredAcceptsExact(base, obs, isRfc3339);
    if obs.sources[i].inputs.basic.None? { assert !IsWaived(base, obs, i); }
  }
}
