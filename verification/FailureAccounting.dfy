/** What the list of failed checks says, and what it does not say, about the evidence. */
module FailureAccounting {
  import opened Sequences
  import opened Model
  import opened Terms
  import opened Aggregation
  import opened Oracle

  // ----- the entries of each part of the list -----

  /** The entry of one slot, if it is questionable. */
  ghost function EntryOf(id: string, slot: EvidenceSlot, check: CheckResult): seq<FailedCheck> {
    if IsQuestionable(check) then [FailedCheck(id, Slot(slot), check.state, check.confidence)] else []
  }

  /** An item contributes its questionable checks, in this order. */
  lemma ItemFailuresExact(item: Evidence)
    ensures ItemFailures(item) ==
            EntryOf(item.id, Present, item.present) + (EntryOf(item.id, Recognized, item.recognized)
            + (EntryOf(item.id, Signature, item.signature) + (EntryOf(item.id, Binding, item.binding)
            + (EntryOf(item.id, Path, item.path) + (EntryOf(item.id, Validity, item.validity)
            + (EntryOf(item.id, Revocation, item.revocation)
            + EntryOf(item.id, DecisionSensitive, item.decisionSensitive)))))))
  {
    var f, checks := ListedCheck(item.id), item.Checks();
    forall named ensures f(named) == EntryOf(item.id, named.slot, named.check) {
    }
    FlatMapUnfolds(checks, 0, f);
    FlatMapUnfolds(checks, 1, f);
    FlatMapUnfolds(checks, 2, f);
    FlatMapUnfolds(checks, 3, f);
    FlatMapUnfolds(checks, 4, f);
    FlatMapUnfolds(checks, 5, f);
    FlatMapUnfolds(checks, 6, f);
    FlatMapUnfolds(checks, 7, f);
  }

  lemma FlatMapUnfolds<A(!new), B(!new)>(s: seq<A>, i: nat, f: A -> seq<B>)
    requires i < |s|
    ensures FlatMap(s[i..], f) == if i + 1 == |s| then f(s[i]) else f(s[i]) + FlatMap(s[i + 1..], f)
    ensures s[0..] == s
  {
    assert s[i..] == [s[i]] + s[i + 1..];
    FlatMapFirst(s[i], s[i + 1..], f);
  }

  /** What is reported for a certificate without evidence of a kind it needs. */
  ghost function Absence(node: CertificateNode, kind: EvidenceKind): FailedCheck {
    match kind
    case ClassicalEvidence => FailedCheck(node.id + ":Classical", Slot(Present), CheckState.Fail, Observed)
    case PostQuantumEvidence => FailedCheck(node.id + ":PostQuantum", Slot(Present), CheckState.Fail, Observed)
  }

  lemma MissingEntryExact(node: CertificateNode, kind: EvidenceKind)
    ensures MissingEntry(node, kind) == Absence(node, kind)
  {
    assert ":" + "Classical" == ":Classical" && ":" + "PostQuantum" == ":PostQuantum";
    assert (node.id + ":") + kind.Name() == node.id + (":" + kind.Name());
  }

  ghost function LacksEvidence(items: seq<Evidence>): CertificateNode -> bool {
    (node: CertificateNode) => forall item | item in items :: item.certificateId != node.id
  }

  ghost function Absences(nodes: seq<CertificateNode>, kind: EvidenceKind): (entries: seq<FailedCheck>)
    ensures |entries| == |nodes|
    ensures forall i | 0 <= i < |nodes| :: entries[i] == Absence(nodes[i], kind)
  {
    seq(|nodes|, i requires 0 <= i < |nodes| => Absence(nodes[i], kind))
  }

  /** Exactly one entry for each required certificate without evidence, in path order. */
  lemma {:induction false} MissingEntriesAreCounted(required: seq<CertificateNode>, items: seq<Evidence>,
                                                    kind: EvidenceKind)
    ensures MissingChecks(required, items, kind) == Absences(Filter(required, LacksEvidence(items)), kind)
  {
    if required != [] {
      var p, rest := LacksEvidence(items), required[1..];
      MissingEntriesAreCounted(rest, items, kind);
      var head := if p(required[0]) then [required[0]] else [];
      assert Filter(required, p) == head + Filter(rest, p);
      AbsencesSplit(head, Filter(rest, p), kind);
      MissingEntryExact(required[0], kind);
      assert MissingFrom(items, kind)(required[0]) == Absences(head, kind);
    }
  }

  lemma AbsencesSplit(a: seq<CertificateNode>, b: seq<CertificateNode>, kind: EvidenceKind)
    ensures Absences(a + b, kind) == Absences(a, kind) + Absences(b, kind)
  {
  }

  /** The pair is for a certificate in scope, and its operation is not established. */
  ghost predicate IsOpenPair(request: VerificationRequest, pair: PairedAuthentication) {
    && pair in request.pairedAuthentications
    && !Established(pair.sameAuthenticationOperation)
    && exists node :: InScope(request, node) && node.id == pair.classicalCertificateId
  }

  ghost function OpenPairEntry(pair: PairedAuthentication): FailedCheck {
    FailedCheck(pair.operationId, SameAuthenticationOperation, pair.sameAuthenticationOperation.state,
                pair.sameAuthenticationOperation.confidence)
  }

  lemma PairFailureExact(request: VerificationRequest, pair: PairedAuthentication)
    requires pair in request.pairedAuthentications
    ensures PairFailure(ScopedCertificates(request))(pair)
            == if IsOpenPair(request, pair) then [OpenPairEntry(pair)] else []
  {
    ScopedCertificatesExact(request);
  }

  // ----- the filters -----

  lemma ScopedCertificatesExact(request: VerificationRequest)
    ensures forall node :: node in ScopedCertificates(request) <==> InScope(request, node)
  {
    assert forall node :: node in ScopedCertificates(request) <==>
                          node in request.certificatePath && NodeInScope(request.pathScope)(node);
  }

  lemma RequiredExact(request: VerificationRequest, kind: EvidenceKind)
    ensures forall node :: node in RequiredCertificates(request, kind) <==> InScope(request, node) && Needs(node, kind)
  {
    ScopedCertificatesExact(request);
    assert forall node :: node in RequiredCertificates(request, kind) <==>
                          node in ScopedCertificates(request) && Requiring(kind)(node);
  }

  lemma ScopedEvidenceExact(request: VerificationRequest)
    ensures forall item :: item in ScopedEvidence(request) <==>
                           item in request.evidence && Covers(request.pathScope, item.position)
  {
    assert forall item :: item in ScopedEvidence(request) <==>
                          item in request.evidence && ItemInScope(request.pathScope)(item);
  }

  lemma ScopedItemsExact(request: VerificationRequest, kind: EvidenceKind)
    ensures forall item :: item in ScopedItems(request, kind) <==>
                           IsScopedEvidence(request, item, kind, item.certificateId)
  {
    assert forall item :: item in ScopedItems(request, kind) <==>
                          item in request.evidence && ItemInScope(request.pathScope)(item) && OfKind(kind)(item);
  }

  // ----- the whole list -----

  /** The certificate needs evidence of the kind, and there is none in scope. */
  ghost predicate IsAbsent(request: VerificationRequest, node: CertificateNode, kind: EvidenceKind) {
    && InScope(request, node) && Needs(node, kind)
    && forall item :: !IsScopedEvidence(request, item, kind, node.id)
  }

  lemma AbsentExact(request: VerificationRequest, kind: EvidenceKind, node: CertificateNode)
    ensures IsAbsent(request, node, kind) <==>
            node in RequiredCertificates(request, kind) && Lacks(ScopedItems(request, kind), node)
  {
    RequiredExact(request, kind);
    ScopedItemsExact(request, kind);
  }

  /** The entry states a questionable check of the item. */
  ghost predicate StatesCheckOf(item: Evidence, entry: FailedCheck) {
    && entry.check.Slot?
    && entry.evidenceId == item.id
    && CheckResult(entry.state, entry.confidence) == item.Check(entry.check.slot)
    && IsQuestionable(item.Check(entry.check.slot))
  }

  /** An entry is a questionable check of an item in scope, needed evidence that is absent, or an open pair. */
  ghost predicate IsReported(request: VerificationRequest, entry: FailedCheck) {
    || (exists item | item in request.evidence && Covers(request.pathScope, item.position) ::
          StatesCheckOf(item, entry))
    || (exists node, kind :: IsAbsent(request, node, kind) && entry == Absence(node, kind))
    || exists pair :: IsOpenPair(request, pair) && entry == OpenPairEntry(pair)
  }

  lemma ItemEntriesExact(item: Evidence, entry: FailedCheck)
    ensures entry in ItemFailures(item) <==> StatesCheckOf(item, entry)
  {
    var checks := item.Checks();
    if StatesCheckOf(item, entry) {
      var named := NamedCheck(entry.check.slot, item.Check(entry.check.slot));
      assert named in checks && entry in ListedCheck(item.id)(named);
    }
    if entry in ItemFailures(item) {
      var named :| named in checks && entry in ListedCheck(item.id)(named);
      assert entry == FailedCheck(item.id, Slot(named.slot), named.check.state, named.check.confidence);
    }
  }

  lemma ItemsEntriesExact(items: seq<Evidence>, entry: FailedCheck)
    ensures entry in FlatMap(items, ItemFailures) <==> exists item | item in items :: StatesCheckOf(item, entry)
  {
    forall item ensures entry in ItemFailures(item) <==> StatesCheckOf(item, entry) { ItemEntriesExact(item, entry); }
  }

  lemma ListedEntriesExact(request: VerificationRequest, entry: FailedCheck)
    ensures entry in FlatMap(ScopedEvidence(request), ItemFailures) <==>
            exists item | item in request.evidence && Covers(request.pathScope, item.position) ::
              StatesCheckOf(item, entry)
  {
    ScopedEvidenceExact(request);
    ItemsEntriesExact(ScopedEvidence(request), entry);
  }

  lemma MissingEntriesExact(request: VerificationRequest, kind: EvidenceKind, entry: FailedCheck)
    ensures entry in MissingChecks(RequiredCertificates(request, kind), ScopedItems(request, kind), kind) <==>
            exists node :: IsAbsent(request, node, kind) && entry == Absence(node, kind)
  {
    var required, f := RequiredCertificates(request, kind), MissingFrom(ScopedItems(request, kind), kind);
    forall node ensures node in required && entry in f(node) <==>
                        IsAbsent(request, node, kind) && entry == Absence(node, kind)
    {
      AbsentExact(request, kind, node);
      MissingEntryExact(node, kind);
    }
    assert entry in FlatMap(required, f) <==> exists node :: node in required && entry in f(node);
  }

  lemma PairEntriesExact(request: VerificationRequest, entry: FailedCheck)
    ensures entry in FlatMap(request.pairedAuthentications, PairFailure(ScopedCertificates(request))) <==>
            exists pair :: IsOpenPair(request, pair) && entry == OpenPairEntry(pair)
  {
    forall pair | pair in request.pairedAuthentications
      ensures entry in PairFailure(ScopedCertificates(request))(pair) <==>
              IsOpenPair(request, pair) && entry == OpenPairEntry(pair)
    {
      PairFailureExact(request, pair);
    }
  }

  /** The list holds exactly these entries. */
  lemma EntriesExact(request: VerificationRequest, entry: FailedCheck)
    ensures entry in AllFailures(request) <==> IsReported(request, entry)
  {
    ListedEntriesExact(request, entry);
    MissingEntriesExact(request, ClassicalEvidence, entry);
    MissingEntriesExact(request, PostQuantumEvidence, entry);
    PairEntriesExact(request, entry);
    if node, kind :| IsAbsent(request, node, kind) && entry == Absence(node, kind) {
      match kind case ClassicalEvidence => case PostQuantumEvidence =>
    }
  }

  /** Nothing in scope is questionable, absent or open. */
  ghost predicate NothingReported(request: VerificationRequest) {
    && (forall item, slot | item in request.evidence && Covers(request.pathScope, item.position) ::
          !IsQuestionable(item.Check(slot)))
    && (forall node, kind :: !IsAbsent(request, node, kind))
    && forall pair :: !IsOpenPair(request, pair)
  }

  lemma EmptyListExact(request: VerificationRequest)
    ensures AllFailures(request) == [] <==> NothingReported(request)
  {
    forall entry ensures entry in AllFailures(request) <==> IsReported(request, entry) {
      EntriesExact(request, entry);
    }
    if !NothingReported(request) { SomethingReported(request); }
    if AllFailures(request) != [] {
      var entry := AllFailures(request)[0];
      assert entry in AllFailures(request) && IsReported(request, entry);
    }
  }

  lemma SomethingReported(request: VerificationRequest)
    requires !NothingReported(request)
    ensures exists entry :: IsReported(request, entry)
  {
    if item, slot :| item in request.evidence && Covers(request.pathScope, item.position)
                     && IsQuestionable(item.Check(slot)) {
      var entry := FailedCheck(item.id, Slot(slot), item.Check(slot).state, item.Check(slot).confidence);
      assert StatesCheckOf(item, entry) && IsReported(request, entry);
    } else if node, kind :| IsAbsent(request, node, kind) {
      assert IsReported(request, Absence(node, kind));
    } else {
      var pair :| IsOpenPair(request, pair);
      assert IsReported(request, OpenPairEntry(pair));
    }
  }

  // ----- what an empty list leaves open -----

  /** The item and the certificate carry their hashes; a trust anchor needs no issuer edge. */
  ghost predicate CarriesHashes(node: CertificateNode, item: Evidence) {
    && node.derSha256.Some? && item.certificateDerSha256.Some? && item.evidenceArtifactDerSha256.Some?
    && (node.position == TrustAnchorPosition || (node.issuerEdgeSha256.Some? && item.issuerEdgeSha256.Some?))
  }

  /** The item carries its hashes, and every inapplicable check stands where it may, with direct confidence. */
  ghost predicate Accountable(node: CertificateNode, item: Evidence, mode: RevocationPolicyMode) {
    && CarriesHashes(node, item)
    && forall slot | item.Check(slot).state.NotApplicable? ::
         MayBeInapplicable(slot, mode) && IsDirect(item.Check(slot).confidence)
  }

  lemma UnlistedItem(node: CertificateNode, item: Evidence, mode: RevocationPolicyMode)
    requires forall slot :: !IsQuestionable(item.Check(slot))
    ensures Accountable(node, item, mode) <==>
            !ItemShows(node, item, mode, Failed) && !ItemShows(node, item, mode, Undetermined)
  {
    forall slot
      ensures SlotState(item, slot, mode).Passed? <==>
              (item.Check(slot).state.NotApplicable? ==>
                 MayBeInapplicable(slot, mode) && IsDirect(item.Check(slot).confidence))
    {
      assert !IsQuestionable(item.Check(slot));
    }
    if Accountable(node, item, mode) {
      forall slot ensures SlotState(item, slot, mode).Passed? {
      }
    } else if EvidenceBindingState(node, item).Passed? {
      var slot :| item.Check(slot).state.NotApplicable?
                  && !(MayBeInapplicable(slot, mode) && IsDirect(item.Check(slot).confidence));
      assert !SlotState(item, slot, mode).Passed?;
    }
  }

  /** All evidence of a kind that some certificate in scope needs is accountable. */
  ghost predicate AllAccountable(request: VerificationRequest, kind: EvidenceKind) {
    forall node, item | InScope(request, node) && Needs(node, kind) && IsScopedEvidence(request, item, kind, node.id) ::
      Accountable(node, item, request.revocationPolicy.mode)
  }

  lemma AccountableEvidence(required: seq<CertificateNode>, items: seq<Evidence>, mode: RevocationPolicyMode)
    requires forall node | node in required :: !Lacks(items, node)
    requires forall item, slot | item in items :: !IsQuestionable(item.Check(slot))
    ensures EvidenceWorst(required, items, mode).Passed? <==>
            forall node, item | node in required && item in items && item.certificateId == node.id ::
              Accountable(node, item, mode)
  {
    forall node, item | node in required && item in items
      ensures Accountable(node, item, mode) <==>
              !ItemShows(node, item, mode, Failed) && !ItemShows(node, item, mode, Undetermined)
    {
      UnlistedItem(node, item, mode);
    }
  }

  /** With nothing reported, the evidence of a kind passed exactly when every required item is accountable. */
  lemma EmptyListAndEvidence(request: VerificationRequest, kind: EvidenceKind)
    requires AllFailures(request) == []
    ensures KindState(request, kind).Passed? <==> AllAccountable(request, kind)
  {
    EmptyListExact(request);
    var required, items := RequiredCertificates(request, kind), ScopedItems(request, kind);
    RequiredExact(request, kind);
    ScopedItemsExact(request, kind);
    forall node | node in required ensures !Lacks(items, node) { AbsentExact(request, kind, node); }
    AccountableEvidence(required, items, request.revocationPolicy.mode);
  }
}
