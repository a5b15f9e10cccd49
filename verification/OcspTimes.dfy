/** OCSP answers as the validation time or the policy varies. */
module OcspTimes {
  import opened Wrappers
  import opened Sequences
  import opened Model
  import opened Serial
  import opened OcspStatus

  /** Freshness without saturation, over unbounded integers. */
  predicate ExactlyFresh(producedAt: int, thisUpdate: int, nextUpdate: Option<int>, t: int, maxAge: int,
                         clockSkew: int)
  {
    && t >= 0
    && producedAt <= t + clockSkew
    && thisUpdate <= t + clockSkew
    && t - thisUpdate <= maxAge
    && (nextUpdate.Some? ==> t <= nextUpdate.value + clockSkew)
  }

  /** Saturating 64-bit arithmetic loses nothing at either end. */
  lemma FreshnessIsExact(producedAt: U64, single: SingleResponse, t: I64, maxAge: U64, clockSkew: U64)
    ensures IsFresh(producedAt, single, t, maxAge, clockSkew) <==>
            ExactlyFresh(producedAt, single.thisUpdate,
                         if single.nextUpdate.None? then None else Some(single.nextUpdate.value), t, maxAge, clockSkew)
  {
  }

  /** A larger age limit or clock skew never makes a fresh response stale. */
  lemma FreshnessGrows(producedAt: U64, single: SingleResponse, t: I64, maxAge: U64, clockSkew: U64,
                       largerAge: U64, largerSkew: U64)
    requires maxAge <= largerAge && clockSkew <= largerSkew
    requires IsFresh(producedAt, single, t, maxAge, clockSkew)
    ensures IsFresh(producedAt, single, t, largerAge, largerSkew)
  {
    FreshnessIsExact(producedAt, single, t, maxAge, clockSkew);
    FreshnessIsExact(producedAt, single, t, largerAge, largerSkew);
  }

  // ----- the times at which a response establishes revocation status -----

  ghost predicate Passes(lib: Library, inputs: Inputs, t: I64, policy: OcspPolicy) {
    var r := Status(lib, inputs, t, policy);
    r.Ok? && r.value.revocation.state.Pass?
  }

  /** The responder carries the extension that exempts it from revocation checking, and not as critical. */
  ghost predicate IsExempt(responder: Certificate) {
    exists e | e in responder.extensions :: e.oid == "1.3.6.1.5.5.7.48.1.5" && !e.critical
  }

  /** What a delegated responder needs apart from the time. */
  ghost predicate DelegationStands(responder: Certificate, issuer: Certificate, policy: OcspPolicy) {
    && responder.issuer == issuer.subject
    && responder.outerAlgorithm == responder.signedAlgorithm
    && responder.issuerSignature.Valid?
    && responder.ocspSigning == Stated(true)
    && (responder.digitalSignature.Absent? || responder.digitalSignature == Stated(true))
    && (IsExempt(responder)
        || (policy.delegatedResponderRevocation.Some? && policy.delegatedResponderRevocation.value.state.Pass?))
  }

  /** The responder may answer at this time. */
  ghost predicate DelegationPasses(lib: Library, responder: Certificate, issuer: Certificate, t: I64,
                                   policy: OcspPolicy)
  {
    && DelegationStands(responder, issuer, policy)
    && lib.firstTime <= t <= lib.lastTime
    && responder.notBefore <= t <= responder.notAfter
  }

  /** Its signature could not be checked, or nothing is known about its revocation. */
  ghost predicate DelegationIsOpen(lib: Library, responder: Certificate, issuer: Certificate, t: I64,
                                   policy: OcspPolicy)
  {
    && responder.issuer == issuer.subject
    && responder.outerAlgorithm == responder.signedAlgorithm
    && (|| responder.issuerSignature.Unverifiable?
        || (&& responder.issuerSignature.Valid?
            && lib.firstTime <= t <= lib.lastTime
            && responder.notBefore <= t <= responder.notAfter
            && responder.ocspSigning == Stated(true)
            && (responder.digitalSignature.Absent? || responder.digitalSignature == Stated(true))
            && !IsExempt(responder)
            && (policy.delegatedResponderRevocation.None?
                || !policy.delegatedResponderRevocation.value.state.Pass?)))
  }

  lemma DelegationExact(lib: Library, responder: Certificate, issuer: Certificate, t: I64, policy: OcspPolicy)
    ensures DelegatedResponderState(lib, responder, issuer, t, policy).Pass?
            <==> DelegationPasses(lib, responder, issuer, t, policy)
  {
    assert HasOcspNoCheck(responder) <==> IsExempt(responder);
  }

  /** Delegation stays open only if the signature could not be checked, or revocation of the responder is unknown. */
  lemma DelegationOpenExact(lib: Library, responder: Certificate, issuer: Certificate, t: I64, policy: OcspPolicy)
    ensures DelegatedResponderState(lib, responder, issuer, t, policy).Indeterminate?
            <==> DelegationIsOpen(lib, responder, issuer, t, policy)
    ensures var state := DelegatedResponderState(lib, responder, issuer, t, policy);
            state.Pass? || state.Indeterminate? || state.Fail?
  {
    assert HasOcspNoCheck(responder) <==> IsExempt(responder);
  }

  /** A closed range of times; empty when last precedes first. */
  datatype Range = Range(first: int, last: int) {
    predicate Has(t: int) { first <= t <= last }

    function Meet(other: Range): (r: Range)
      ensures forall t :: r.Has(t) <==> Has(t) && other.Has(t)
    {
      Range(if first < other.first then other.first else first, if last < other.last then last else other.last)
    }
  }

  const NEVER := Range(1, 0)

  const ALWAYS := Range(-0x8000_0000_0000_0000, 0x7FFF_FFFF_FFFF_FFFF)

  /** When the responder and its signature are acceptable. */
  ghost function ResponderRange(lib: Library, basic: BasicResponse, issuer: Certificate, policy: OcspPolicy): Range {
    var candidates := Candidates(lib, basic);
    if !basic.signatureIsWellFormed then NEVER
    else if ResponderMatches(lib, basic, issuer) then if issuer.responseSignature.Valid? then ALWAYS else NEVER
    else if |candidates| == 1 && candidates[0].responseSignature.Valid?
            && DelegationStands(candidates[0], issuer, policy) then
      Range(lib.firstTime, lib.lastTime).Meet(Range(candidates[0].notBefore, candidates[0].notAfter))
    else NEVER
  }

  lemma ResponderRangeExact(lib: Library, basic: BasicResponse, issuer: Certificate, t: I64, policy: OcspPolicy)
    ensures ResponderStates(lib, basic, issuer, t, policy) == Ok((CheckState.Pass, CheckState.Pass))
            <==> ResponderRange(lib, basic, issuer, policy).Has(t)
  {
    var candidates := Candidates(lib, basic);
    if |candidates| == 1 { DelegationExact(lib, candidates[0], issuer, t, policy); }
  }

  ghost function FreshRange(producedAt: U64, single: SingleResponse, policy: OcspPolicy): Range {
    Range(0, single.thisUpdate + policy.maxAge)
    .Meet(Range(producedAt - policy.clockSkew, U64_MAX))
    .Meet(Range(single.thisUpdate - policy.clockSkew,
                if single.nextUpdate.None? then U64_MAX else single.nextUpdate.value + policy.clockSkew))
  }

  lemma FreshRangeExact(producedAt: U64, single: SingleResponse, t: I64, policy: OcspPolicy)
    ensures IsFresh(producedAt, single, t, policy.maxAge, policy.clockSkew) <==>
            FreshRange(producedAt, single, policy).Has(t)
  {
    FreshnessIsExact(producedAt, single, t, policy.maxAge, policy.clockSkew);
  }

  /** When the stated status is good in effect, for times not before the epoch. */
  function GoodRange(status: CertStatus): Range {
    match status
    case StatusGood => ALWAYS
    case StatusUnknown => NEVER
    case StatusRevoked(at) => Range(-0x8000_0000_0000_0000, at - 1)
  }

  /** Everything the answer needs that does not depend on the time. */
  ghost predicate Stands(lib: Library, inputs: Inputs, policy: OcspPolicy) {
    && inputs.basic.Some?
    && (inputs.expectedNonce.Some? ==> 1 <= |inputs.expectedNonce.value| <= 32)
    && (inputs.expectedNonce.Some? ==> CheckNonce(inputs.basic.value, inputs.expectedNonce).Pass?)
    && inputs.certificate.issuer == inputs.issuer.subject
    && inputs.certificate.outerAlgorithm == inputs.certificate.signedAlgorithm
    && inputs.certificate.issuerSignature.Valid?
    && AllExtensionsAcceptable(inputs.basic.value)
    && var matching := MatchingResponses(lib, inputs.basic.value.responses, inputs.certificate, inputs.issuer);
       matching.Ok? && |matching.value| == 1
  }

  ghost function PassRange(lib: Library, inputs: Inputs, policy: OcspPolicy): Range {
    if !Stands(lib, inputs, policy) then NEVER
    else
      var basic := inputs.basic.value;
      var single := MatchingResponses(lib, basic.responses, inputs.certificate, inputs.issuer).value[0];
      ResponderRange(lib, basic, inputs.issuer, policy)
      .Meet(FreshRange(basic.producedAt, single, policy))
      .Meet(GoodRange(single.status))
  }

  /** With all else fixed, the times at which a response passes are exactly one closed range. */
  lemma PassTimesAreOneRange(lib: Library, inputs: Inputs, t: I64, policy: OcspPolicy)
    requires !policy.mode.NotRequired?
    ensures Passes(lib, inputs, t, policy) <==> PassRange(lib, inputs, policy).Has(t)
  {
    if inputs.basic.Some? {
      var basic := inputs.basic.value;
      var matching := MatchingResponses(lib, basic.responses, inputs.certificate, inputs.issuer);
      ResponderRangeExact(lib, basic, inputs.issuer, t, policy);
      if matching.Ok? && |matching.value| == 1 {
        FreshRangeExact(basic.producedAt, matching.value[0], t, policy);
      }
    }
  }

  /** Between two passing times every time passes. */
  lemma PassTimesHaveNoGap(lib: Library, inputs: Inputs, early: I64, t: I64, late: I64, policy: OcspPolicy)
    requires !policy.mode.NotRequired? && early <= t <= late
    requires Passes(lib, inputs, early, policy) && Passes(lib, inputs, late, policy)
    ensures Passes(lib, inputs, t, policy)
  {
    PassTimesAreOneRange(lib, inputs, early, policy);
    PassTimesAreOneRange(lib, inputs, t, policy);
    PassTimesAreOneRange(lib, inputs, late, policy);
  }

  // ----- the times at which a response establishes revocation -----

  /** When the stated status is revoked in effect. */
  function RevokedRange(status: CertStatus): Range {
    match status
    case StatusRevoked(at) => Range(at, 0x7FFF_FFFF_FFFF_FFFF)
    case _ => NEVER
  }

  ghost function RevokedTimes(lib: Library, inputs: Inputs, policy: OcspPolicy): Range {
    if !Stands(lib, inputs, policy) then NEVER
    else
      var basic := inputs.basic.value;
      var single := MatchingResponses(lib, basic.responses, inputs.certificate, inputs.issuer).value[0];
      ResponderRange(lib, basic, inputs.issuer, policy)
      .Meet(FreshRange(basic.producedAt, single, policy))
      .Meet(RevokedRange(single.status))
  }

  /** Under soft-fail a response fails exactly within one closed range: where it is usable and revocation has begun. */
  lemma SoftFailTimesAreOneRange(lib: Library, inputs: Inputs, t: I64, policy: OcspPolicy)
    requires policy.mode.SoftFail?
    ensures (Status(lib, inputs, t, policy).Ok? && Status(lib, inputs, t, policy).value.revocation.state.Fail?)
            <==> RevokedTimes(lib, inputs, policy).Has(t)
  {
    if inputs.basic.Some? {
      var basic := inputs.basic.value;
      var matching := MatchingResponses(lib, basic.responses, inputs.certificate, inputs.issuer);
      ResponderRangeExact(lib, basic, inputs.issuer, t, policy);
      if matching.Ok? && |matching.value| == 1 {
        FreshRangeExact(basic.producedAt, matching.value[0], t, policy);
      }
    }
  }

  // ----- the nonce -----

  /** The nonce extension stands at exactly one place. */
  ghost predicate SoleNonceAt(extensions: seq<Extension>, i: nat) {
    && i < |extensions| && extensions[i].oid == "1.3.6.1.5.5.7.48.1.2"
    && forall j | 0 <= j < |extensions| && extensions[j].oid == "1.3.6.1.5.5.7.48.1.2" :: j == i
  }

  /** An expected nonce passes exactly if one extension is a nonce and it carries the expected bytes. */
  lemma NonceExact(basic: BasicResponse, expected: Option<seq<Byte>>)
    ensures CheckNonce(basic, expected).Indeterminate? <==> expected.None?
    ensures CheckNonce(basic, expected).Pass? <==>
            expected.Some? && exists i: nat :: SoleNonceAt(basic.extensions, i) && basic.extensions[i].nonce == expected
  {
    FilterSole(basic.extensions, IsNonce());
    var kept := Filter(basic.extensions, IsNonce());
    if |kept| == 1 {
      var i: nat :| SoleAt(basic.extensions, IsNonce(), i) && kept == [basic.extensions[i]];
      assert SoleNonceAt(basic.extensions, i);
    }
    if i: nat :| SoleNonceAt(basic.extensions, i) { assert SoleAt(basic.extensions, IsNonce(), i); }
  }

  /** Whether a call fails, and with which error, does not depend on the time. */
  lemma ErrorsAreTimeless(lib: Library, inputs: Inputs, t: I64, u: I64, policy: OcspPolicy)
    ensures Status(lib, inputs, t, policy).Err? ==> Status(lib, inputs, t, policy) == Status(lib, inputs, u, policy)
  {
  }

  /** Once a certificate counts as revoked it counts as revoked at every later time. */
  lemma RevokedStaysRevoked(lib: Library, inputs: Inputs, t: I64, later: I64, policy: OcspPolicy)
    requires t <= later
    requires Status(lib, inputs, t, policy).Ok? && Status(lib, inputs, t, policy).value.effectiveStatus.Revoked?
    ensures Status(lib, inputs, later, policy).Ok?
    ensures Status(lib, inputs, later, policy).value.effectiveStatus.Revoked?
    ensures !Passes(lib, inputs, later, policy)
  {
    ErrorsAreTimeless(lib, inputs, later, t, policy);
  }

  /** Unavailable is only ever reported for an unsuccessful response, and such a response never passes. */
  lemma UnavailableOnlyWithoutResponse(lib: Library, inputs: Inputs, t: I64, policy: OcspPolicy)
    requires Status(lib, inputs, t, policy).Ok?
    ensures var r := Status(lib, inputs, t, policy).value;
            && (r.effectiveStatus.Unavailable? <==> inputs.basic.None?)
            && (r.responseStatus.state.Pass? <==> inputs.basic.Some?)
            && (inputs.basic.None? ==> r.revocation.state.Indeterminate?)
            && (r.revocation.state.Pass? ==> r.effectiveStatus.Good? && !policy.mode.NotRequired?)
  {
  }

  /** How the revocation state depends on the mode, with all else fixed. */
  lemma ModesCompared(lib: Library, inputs: Inputs, t: I64, policy: OcspPolicy)
    ensures var soft, hard, off := Status(lib, inputs, t, policy.(mode := SoftFail)),
                                   Status(lib, inputs, t, policy.(mode := HardFail)),
                                   Status(lib, inputs, t, policy.(mode := NotRequired));
            && soft.Ok? == hard.Ok? == off.Ok?
            && (soft.Ok? ==>
                  && (soft.value.revocation.state.Pass? <==> hard.value.revocation.state.Pass?)
                  && (soft.value.revocation.state.Fail? ==> hard.value.revocation.state.Fail?)
                  && (inputs.basic.Some? ==>
                        && (hard.value.revocation.state.Fail? <==> !soft.value.revocation.state.Pass?)
                        && off.value.revocation.state.NotApplicable?)
                  && (inputs.basic.None? ==>
                        soft.value.revocation == hard.value.revocation == off.value.revocation
                        == CheckResult(CheckState.Indeterminate, Observed)))
  {
  }

  /** Padding a CertID serial with zero bytes changes no match. */
  lemma CertIdIgnoresPadding(lib: Library, single: SingleResponse, zeros: nat, certificate: Certificate,
                             issuer: Certificate)
    ensures CertIdMatches(lib, single.(serial := Zeros(zeros) + single.serial), certificate, issuer)
            == CertIdMatches(lib, single, certificate, issuer)
  {
    PaddingIsIgnored(single.serial, zeros);
  }

  /** With a supported digest, matching means both issuer hashes agree and the serial numbers are equal as numbers. */
  lemma CertIdMatchesNumerically(lib: Library, single: SingleResponse, certificate: Certificate, issuer: Certificate)
    requires !single.hashAlgorithm.OtherDigest?
    ensures CertIdMatches(lib, single, certificate, issuer) ==
            Some(single.issuerNameHash == lib.digest(single.hashAlgorithm, issuer.subject)
                 && single.issuerKeyHash == lib.digest(single.hashAlgorithm, issuer.publicKey)
                 && Value(single.serial) == Value(certificate.rawSerial))
  {
    SerialsMatchNumerically(single.serial, certificate.rawSerial);
  }

  /** The response is about this certificate, by both digests of its issuer and its serial number. */
  ghost predicate Names(lib: Library, single: SingleResponse, certificate: Certificate, issuer: Certificate) {
    && !single.hashAlgorithm.OtherDigest?
    && single.issuerNameHash == lib.digest(single.hashAlgorithm, issuer.subject)
    && single.issuerKeyHash == lib.digest(single.hashAlgorithm, issuer.publicKey)
    && Value(single.serial) == Value(certificate.rawSerial)
  }

  /**
   * Matching fails on any unsupported digest; otherwise it keeps the naming responses, more than one if two
   * places name.
   */
  lemma MatchingExact(lib: Library, responses: seq<SingleResponse>, certificate: Certificate, issuer: Certificate)
    ensures var matching := MatchingResponses(lib, responses, certificate, issuer);
            && (matching.Ok? <==> forall single | single in responses :: !single.hashAlgorithm.OtherDigest?)
            && (matching.Ok? ==>
                  && KeepsTheNaming(lib, responses, certificate, issuer, matching.value)
                  && (|matching.value| > 1 <==> TwoPlacesName(lib, responses, certificate, issuer)))
  {
    MatchingNeedsDigests(lib, responses, certificate, issuer);
    if MatchingResponses(lib, responses, certificate, issuer).Ok? {
      MatchingKeeps(lib, responses, certificate, issuer);
    }
  }

  ghost predicate KeepsTheNaming(lib: Library, responses: seq<SingleResponse>, certificate: Certificate,
                                 issuer: Certificate, kept: seq<SingleResponse>) {
    forall single :: single in kept <==> single in responses && Names(lib, single, certificate, issuer)
  }

  ghost predicate TwoPlacesName(lib: Library, responses: seq<SingleResponse>, certificate: Certificate,
                                issuer: Certificate) {
    exists i, j :: 0 <= i < j < |responses| && Names(lib, responses[i], certificate, issuer)
                   && Names(lib, responses[j], certificate, issuer)
  }

  lemma {:induction false} MatchingNeedsDigests(lib: Library, responses: seq<SingleResponse>, certificate: Certificate,
                                                issuer: Certificate)
    ensures MatchingResponses(lib, responses, certificate, issuer).Ok?
            <==> forall single | single in responses :: !single.hashAlgorithm.OtherDigest?
  {
    if responses != [] {
      MatchingNeedsDigests(lib, responses[1..], certificate, issuer);
      assert forall single :: single in responses <==> single == responses[0] || single in responses[1..];
    }
  }

  lemma {:induction false} MatchingKeeps(lib: Library, responses: seq<SingleResponse>, certificate: Certificate,
                                         issuer: Certificate)
    requires MatchingResponses(lib, responses, certificate, issuer).Ok?
    ensures var kept := MatchingResponses(lib, responses, certificate, issuer).value;
            && KeepsTheNaming(lib, responses, certificate, issuer, kept)
            && (|kept| > 1 <==> TwoPlacesName(lib, responses, certificate, issuer))
  {
    if responses != [] {
      MatchingKeeps(lib, responses[1..], certificate, issuer);
      CertIdMatchesNumerically(lib, responses[0], certificate, issuer);
      assert forall single :: single in responses <==> single == responses[0] || single in responses[1..];
      MatchingTwice(lib, responses, certificate, issuer,
                    MatchingResponses(lib, responses[1..], certificate, issuer).value);
    }
  }

  lemma MatchingTwice(lib: Library, responses: seq<SingleResponse>, certificate: Certificate, issuer: Certificate,
                      rest: seq<SingleResponse>)
    requires responses != []
    requires KeepsTheNaming(lib, responses[1..], certificate, issuer, rest)
    requires |rest| > 1 <==> TwoPlacesName(lib, responses[1..], certificate, issuer)
    ensures var all := (if Names(lib, responses[0], certificate, issuer) then [responses[0]] else []) + rest;
            |all| > 1 <==> TwoPlacesName(lib, responses, certificate, issuer)
  {
    var tail := responses[1..];
    if |rest| > 1 {
      var i, j :| 0 <= i < j < |tail| && Names(lib, tail[i], certificate, issuer)
                  && Names(lib, tail[j], certificate, issuer);
      assert Names(lib, responses[i + 1], certificate, issuer) && Names(lib, responses[j + 1], certificate, issuer);
    } else if Names(lib, responses[0], certificate, issuer) && |rest| == 1 {
      assert rest[0] in tail;
      var j :| 0 <= j < |tail| && tail[j] == rest[0];
      assert Names(lib, responses[j + 1], certificate, issuer);
    }
    if i, j :| 0 <= i < j < |responses| && Names(lib, responses[i], certificate, issuer)
               && Names(lib, responses[j], certificate, issuer) {
      assert tail[j - 1] in tail && tail[j - 1] in rest;
      if i > 0 { assert Names(lib, tail[i - 1], certificate, issuer) && Names(lib, tail[j - 1], certificate, issuer); }
    }
  }
}
