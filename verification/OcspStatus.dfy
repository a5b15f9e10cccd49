/** The decision procedure of src/ocsp.rs over parsed responses and certificates. */
module OcspStatus {
  import opened Wrappers
  import opened Sequences
  import opened Model
  import opened Serial

  type U64 = x: int | 0 <= x < 0x1_0000_0000_0000_0000

  type I64 = x: int | -0x8000_0000_0000_0000 <= x < 0x8000_0000_0000_0000

  const U64_MAX: U64 := 0xFFFF_FFFF_FFFF_FFFF

  function SaturatingAdd(a: U64, b: U64): U64 { if a + b > U64_MAX then U64_MAX else a + b }

  function SaturatingSub(a: U64, b: U64): U64 { if a < b then 0 else a - b }

  // ----- parsed input -----

  /** A signature check: it holds, it does not, or it could not be carried out. */
  datatype SignatureOutcome = Valid | Invalid | Unverifiable

  datatype DigestAlgorithm = Sha1 | Sha256 | Sha384 | Sha512 | OtherDigest(oid: string)

  datatype Extension = Extension(oid: string, critical: bool, nonce: Option<seq<Byte>>)

  const OCSP_NONCE_OID := "1.3.6.1.5.5.7.48.1.2"

  const OCSP_NOCHECK_OID := "1.3.6.1.5.5.7.48.1.5"

  /** An optional extension that may also be undecodable. */
  datatype Usage = Undecodable | Absent | Stated(allows: bool)

  datatype Certificate = Certificate(
    subject: seq<Byte>,
    issuer: seq<Byte>,
    publicKey: seq<Byte>,
    rawSerial: seq<Byte>,
    outerAlgorithm: string,
    signedAlgorithm: string,
    issuerSignature: SignatureOutcome,    // of the certificate, under the issuer's key
    responseSignature: SignatureOutcome,  // of the response, under this certificate's key
    notBefore: int,
    notAfter: int,
    ocspSigning: Usage,
    digitalSignature: Usage,
    extensions: seq<Extension>)

  /** A certificate carried by the response; it may fail to decode, or decode with bytes left over. */
  datatype EmbeddedCertificate = NotDecodable | Trailing | Whole(certificate: Certificate)

  datatype ResponderId = ByName(der: Option<seq<Byte>>) | ByKey(keyHash: seq<Byte>)

  datatype CertStatus = StatusGood | StatusRevoked(at: U64) | StatusUnknown

  datatype SingleResponse = SingleResponse(
    hashAlgorithm: DigestAlgorithm,
    issuerNameHash: seq<Byte>,
    issuerKeyHash: seq<Byte>,
    serial: seq<Byte>,
    status: CertStatus,
    thisUpdate: U64,
    nextUpdate: Option<U64>,
    extensions: seq<Extension>)

  datatype BasicResponse = BasicResponse(
    responderId: ResponderId,
    producedAt: U64,
    responses: seq<SingleResponse>,
    extensions: seq<Extension>,
    certificates: seq<EmbeddedCertificate>,
    signatureIsWellFormed: bool)

  /** What one call receives; basic is absent when the response status is not successful. */
  datatype Inputs = Inputs(
    basic: Option<BasicResponse>,
    certificate: Certificate,
    issuer: Certificate,
    expectedNonce: Option<seq<Byte>>)

  datatype OcspPolicy = OcspPolicy(
    maxAge: U64,
    clockSkew: U64,
    mode: RevocationPolicyMode,
    delegatedResponderRevocation: Option<CheckResult>)

  /** Library facts the procedure relies on: digests, and the range of times an ASN.1 time can represent. */
  datatype Library = Library(
    digest: (DigestAlgorithm, seq<Byte>) -> seq<Byte>,
    firstTime: int,
    lastTime: int)

  datatype OcspCertificateStatus = Good | Revoked | UnknownStatus | Unavailable

  datatype OcspStatusResult = OcspStatusResult(
    appliedRevocationPolicy: RevocationPolicy,
    responseStatus: CheckResult,
    signature: CheckResult,
    responder: CheckResult,
    issuer: CheckResult,
    certificateId: CheckResult,
    freshness: CheckResult,
    extensions: CheckResult,
    nonce: CheckResult,
    revocation: CheckResult,
    responseCertificateStatus: OcspCertificateStatus,
    effectiveStatus: OcspCertificateStatus)

  datatype OcspError =
    | UnsupportedDigestAlgorithm(oid: string)
    | DuplicateSingleResponse
    | MalformedSignatureAlgorithm
    | InvalidExpectedNonceLength

  function Observe(state: CheckState): CheckResult { CheckResult(state, Observed) }

  function StateOf(value: bool): CheckState { if value then CheckState.Pass else CheckState.Fail }

  function CryptoState(outcome: SignatureOutcome): CheckState {
    match outcome
    case Valid => CheckState.Pass
    case Invalid => CheckState.Fail
    case Unverifiable => CheckState.Indeterminate
  }

  // ----- responder and signature -----

  predicate ResponderMatches(lib: Library, basic: BasicResponse, certificate: Certificate) {
    match basic.responderId
    case ByName(der) => der == Some(certificate.subject)
    case ByKey(keyHash) => lib.digest(Sha1, certificate.publicKey) == keyHash
  }

  predicate HasOcspNoCheck(responder: Certificate) {
    exists e | e in responder.extensions :: !e.critical && e.oid == OCSP_NOCHECK_OID
  }

  function DelegatedResponderState(lib: Library, responder: Certificate, issuer: Certificate, t: I64,
                                   policy: OcspPolicy): CheckState
  {
    if responder.issuer != issuer.subject || responder.outerAlgorithm != responder.signedAlgorithm then CheckState.Fail
    else if !responder.issuerSignature.Valid? then CryptoState(responder.issuerSignature)
    else if !(lib.firstTime <= t <= lib.lastTime) then CheckState.Fail
    else if !(responder.notBefore <= t <= responder.notAfter) then CheckState.Fail
    else if !responder.ocspSigning.Stated? then CheckState.Fail
    else if !responder.ocspSigning.allows then CheckState.Fail
    else if responder.digitalSignature.Stated? && !responder.digitalSignature.allows then CheckState.Fail
    else if responder.digitalSignature.Undecodable? then CheckState.Fail
    else if HasOcspNoCheck(responder)
            || (policy.delegatedResponderRevocation.Some?
                && policy.delegatedResponderRevocation.value.state.Pass?) then CheckState.Pass
    else CheckState.Indeterminate
  }

  function SignatureState(basic: BasicResponse, signer: Certificate): Result<CheckState, OcspError> {
    if basic.signatureIsWellFormed then Ok(CryptoState(signer.responseSignature)) else Err(MalformedSignatureAlgorithm)
  }

  /** The embedded certificate, if it decodes whole and is the named responder. */
  function Candidate(lib: Library, basic: BasicResponse): EmbeddedCertificate -> seq<Certificate> {
    (embedded: EmbeddedCertificate) =>
      if embedded.Whole? && ResponderMatches(lib, basic, embedded.certificate) then [embedded.certificate] else []
  }

  ghost function Candidates(lib: Library, basic: BasicResponse): seq<Certificate> {
    FlatMap(basic.certificates, Candidate(lib, basic))
  }

  /** The issuer answers itself; otherwise exactly one embedded responder must match. */
  ghost function ResponderStates(lib: Library, basic: BasicResponse, issuer: Certificate, t: I64, policy: OcspPolicy)
    : Result<(CheckState, CheckState), OcspError>
  {
    var candidates := Candidates(lib, basic);
    if ResponderMatches(lib, basic, issuer) then
      if basic.signatureIsWellFormed then Ok((CheckState.Pass, CryptoState(issuer.responseSignature)))
      else Err(MalformedSignatureAlgorithm)
    else if candidates == [] then Ok((CheckState.Fail, CheckState.Indeterminate))
    else if !basic.signatureIsWellFormed then Err(MalformedSignatureAlgorithm)
    else if |candidates| > 1 then Ok((CheckState.Fail, CheckState.Indeterminate))
    else Ok((DelegatedResponderState(lib, candidates[0], issuer, t, policy),
             CryptoState(candidates[0].responseSignature)))
  }

  method ResponderAndSignatureStates(lib: Library, basic: BasicResponse, issuer: Certificate, t: I64,
                                     policy: OcspPolicy)
    returns (states: Result<(CheckState, CheckState), OcspError>)
    ensures states == ResponderStates(lib, basic, issuer, t, policy)
  {
    if ResponderMatches(lib, basic, issuer) {
      var signature := SignatureState(basic, issuer);
      if signature.Err? { return Err(signature.error); }
      return Ok((CheckState.Pass, signature.value));
    }
    var result: Option<(CheckState, CheckState)> := None;
    ghost var candidate := Candidate(lib, basic);
    for i := 0 to |basic.certificates|
      invariant var seen := FlatMap(basic.certificates[..i], candidate);
                match result
                case None => seen == []
                case Some(pair) =>
                  |seen| == 1 && basic.signatureIsWellFormed
                  && pair == (DelegatedResponderState(lib, seen[0], issuer, t, policy),
                              CryptoState(seen[0].responseSignature))
    {
      var embedded := basic.certificates[i];
      CandidatesSplit(lib, basic, i);
      if embedded.Whole? && ResponderMatches(lib, basic, embedded.certificate) {
        if result.Some? { return Ok((CheckState.Fail, CheckState.Indeterminate)); }
        var signature := SignatureState(basic, embedded.certificate);
        if signature.Err? { return Err(signature.error); }
        result := Some((DelegatedResponderState(lib, embedded.certificate, issuer, t, policy), signature.value));
      }
    }
    assert basic.certificates[..|basic.certificates|] == basic.certificates;
    return Ok(if result.Some? then result.value else (CheckState.Fail, CheckState.Indeterminate));
  }

  /** The candidates are those before place i, then the one at i if it is one, then the rest. */
  lemma CandidatesSplit(lib: Library, basic: BasicResponse, i: nat)
    requires i < |basic.certificates|
    ensures var c, before := Candidate(lib, basic), FlatMap(basic.certificates[..i], Candidate(lib, basic));
            && FlatMap(basic.certificates[..i + 1], c) == before + c(basic.certificates[i])
            && |Candidates(lib, basic)| >= |before| + |c(basic.certificates[i])|
            && before + c(basic.certificates[i]) <= Candidates(lib, basic)
  {
    var c, all := Candidate(lib, basic), basic.certificates;
    FlatMapExtends(all, i, c);
    assert all == all[..i + 1] + all[i + 1..];
    FlatMapSplit(all[..i + 1], all[i + 1..], c);
  }

  // ----- extensions and nonce -----

  ghost predicate ExtensionsAcceptable(extensions: seq<Extension>) {
    && (forall e | e in extensions :: !e.critical)
    && forall i, j :: 0 <= i < j < |extensions| ==> extensions[i].oid != extensions[j].oid
  }

  method HasRepeatedOrCritical(extensions: seq<Extension>) returns (found: bool)
    ensures found <==> !ExtensionsAcceptable(extensions)
  {
    var oids: set<string> := {};
    for i := 0 to |extensions|
      invariant forall oid :: oid in oids <==> exists k :: 0 <= k < i && extensions[k].oid == oid
      invariant ExtensionsAcceptable(extensions[..i])
    {
      assert extensions[..i + 1] == extensions[..i] + [extensions[i]];
      if extensions[i].oid in oids || extensions[i].critical {
        assert extensions[i] in extensions;
        return true;
      }
      oids := oids + {extensions[i].oid};
    }
    assert extensions[..|extensions|] == extensions;
    found := false;
  }

  ghost predicate AllExtensionsAcceptable(basic: BasicResponse) {
    && ExtensionsAcceptable(basic.extensions)
    && forall single | single in basic.responses :: ExtensionsAcceptable(single.extensions)
  }

  method OcspExtensionsValid(basic: BasicResponse) returns (valid: bool)
    ensures valid <==> AllExtensionsAcceptable(basic)
  {
    var found := HasRepeatedOrCritical(basic.extensions);
    if found { return false; }
    for i := 0 to |basic.responses|
      invariant forall k :: 0 <= k < i ==> ExtensionsAcceptable(basic.responses[k].extensions)
    {
      found := HasRepeatedOrCritical(basic.responses[i].extensions);
      if found {
        assert basic.responses[i] in basic.responses;
        return false;
      }
    }
    valid := true;
  }

  function IsNonce(): Extension -> bool { (e: Extension) => e.oid == OCSP_NONCE_OID }

  function CheckNonce(basic: BasicResponse, expected: Option<seq<Byte>>): CheckState {
    if expected.None? then CheckState.Indeterminate
    else
      var matching := Filter(basic.extensions, IsNonce());
      if |matching| != 1 then CheckState.Fail else StateOf(matching[0].nonce == expected)
  }

  // ----- certificate identifier, freshness and status -----

  /** The CertID names the certificate under its issuer; None when the digest is unsupported. */
  function CertIdMatches(lib: Library, single: SingleResponse, certificate: Certificate, issuer: Certificate)
    : Option<bool>
  {
    if single.hashAlgorithm.OtherDigest? then None
    else Some(
      && single.issuerNameHash == lib.digest(single.hashAlgorithm, issuer.subject)
      && single.issuerKeyHash == lib.digest(single.hashAlgorithm, issuer.publicKey)
      && NormalizedSerial(single.serial) == NormalizedSerial(certificate.rawSerial))
  }

  /** All responses are matched before any is used, so one unsupported digest fails the whole call. */
  function MatchingResponses(lib: Library, responses: seq<SingleResponse>, certificate: Certificate,
                             issuer: Certificate): Result<seq<SingleResponse>, OcspError>
  {
    if responses == [] then Ok([])
    else
      match CertIdMatches(lib, responses[0], certificate, issuer)
      case None => Err(UnsupportedDigestAlgorithm(responses[0].hashAlgorithm.oid))
      case Some(matches) =>
        var rest := MatchingResponses(lib, responses[1..], certificate, issuer);
        if rest.Err? then rest else Ok((if matches then [responses[0]] else []) + rest.value)
  }

  predicate IsFresh(producedAt: U64, single: SingleResponse, t: I64, maxAge: U64, clockSkew: U64) {
    if t < 0 then false
    else
      var validation: U64 := t;
      var upper := SaturatingAdd(validation, clockSkew);
      && producedAt <= upper
      && single.thisUpdate <= upper
      && SaturatingSub(validation, single.thisUpdate) <= maxAge
      && (single.nextUpdate.None? || validation <= SaturatingAdd(single.nextUpdate.value, clockSkew))
  }

  /** The status the response states, and the status in effect at time t. */
  function CertificateStatusAt(status: CertStatus, t: I64): (OcspCertificateStatus, OcspCertificateStatus) {
    match status
    case StatusGood => (Good, Good)
    case StatusUnknown => (UnknownStatus, UnknownStatus)
    case StatusRevoked(at) => (Revoked, if t >= 0 && at <= t then Revoked else Good)
  }

  function RevocationState(mode: RevocationPolicyMode, prerequisites: bool, effective: OcspCertificateStatus)
    : CheckState
  {
    if mode.NotRequired? then CheckState.NotApplicable
    else if mode.SoftFail? && (!prerequisites || effective.UnknownStatus?) then CheckState.Indeterminate
    else if mode.HardFail? && (!prerequisites || effective.UnknownStatus?) then CheckState.Fail
    else if effective.Revoked? then CheckState.Fail
    else CheckState.Pass
  }

  function AppliedPolicy(policy: OcspPolicy): RevocationPolicy {
    RevocationPolicy(policy.mode, Some(policy.maxAge), Some(policy.clockSkew))
  }

  function UnavailableResult(policy: OcspPolicy): OcspStatusResult {
    var indeterminate := Observe(CheckState.Indeterminate);
    OcspStatusResult(AppliedPolicy(policy), Observe(CheckState.Fail), indeterminate, indeterminate, indeterminate,
                     indeterminate, indeterminate, indeterminate, indeterminate, indeterminate, Unavailable,
                     Unavailable)
  }

  function IssuerState(certificate: Certificate, issuer: Certificate): CheckState {
    if certificate.issuer != issuer.subject || certificate.outerAlgorithm != certificate.signedAlgorithm then
      CheckState.Fail
    else CryptoState(certificate.issuerSignature)
  }

  /** The result once responder, extension and response matching are known. */
  function Conclude(basic: BasicResponse, inputs: Inputs, t: I64, policy: OcspPolicy,
                    states: (CheckState, CheckState), matching: seq<SingleResponse>, extensionsValid: bool)
    : OcspStatusResult
    requires |matching| <= 1
  {
    var single := if matching == [] then None else Some(matching[0]);
    var issuerState := IssuerState(inputs.certificate, inputs.issuer);
    var freshness := single.Some? && IsFresh(basic.producedAt, single.value, t, policy.maxAge, policy.clockSkew);
    var nonceState := CheckNonce(basic, inputs.expectedNonce);
    var status := if single.None? then (UnknownStatus, UnknownStatus) else CertificateStatusAt(single.value.status, t);
    var prerequisites :=
      && states.0.Pass? && states.1.Pass? && issuerState.Pass? && single.Some? && freshness && extensionsValid
      && (inputs.expectedNonce.None? || nonceState.Pass?);
    OcspStatusResult(
      AppliedPolicy(policy), Observe(CheckState.Pass), Observe(states.1), Observe(states.0), Observe(issuerState),
      Observe(StateOf(single.Some?)), Observe(StateOf(freshness)), Observe(StateOf(extensionsValid)),
      Observe(nonceState), Observe(RevocationState(policy.mode, prerequisites, status.1)), status.0, status.1)
  }

  /** What a call returns for parsed inputs at time t. */
  ghost function Status(lib: Library, inputs: Inputs, t: I64, policy: OcspPolicy): Result<OcspStatusResult, OcspError> {
    if inputs.basic.None? then Ok(UnavailableResult(policy))
    else if inputs.expectedNonce.Some? && !(1 <= |inputs.expectedNonce.value| <= 32) then
      Err(InvalidExpectedNonceLength)
    else
      var basic := inputs.basic.value;
      var states := ResponderStates(lib, basic, inputs.issuer, t, policy);
      var matching := MatchingResponses(lib, basic.responses, inputs.certificate, inputs.issuer);
      if states.Err? then Err(states.error)
      else if matching.Err? then Err(matching.error)
      else if |matching.value| > 1 then Err(DuplicateSingleResponse)
      else Ok(Conclude(basic, inputs, t, policy, states.value, matching.value, AllExtensionsAcceptable(basic)))
  }

  method CheckOcspStatus(lib: Library, inputs: Inputs, t: I64, policy: OcspPolicy)
    returns (result: Result<OcspStatusResult, OcspError>)
    ensures result == Status(lib, inputs, t, policy)
  {
    if inputs.basic.None? { return Ok(UnavailableResult(policy)); }
    var basic := inputs.basic.value;
    if inputs.expectedNonce.Some? && (inputs.expectedNonce.value == [] || |inputs.expectedNonce.value| > 32) {
      return Err(InvalidExpectedNonceLength);
    }
    var states := ResponderAndSignatureStates(lib, basic, inputs.issuer, t, policy);
    if states.Err? { return Err(states.error); }
    var matching := MatchingResponses(lib, basic.responses, inputs.certificate, inputs.issuer);
    if matching.Err? { return Err(matching.error); }
    if |matching.value| > 1 { return Err(DuplicateSingleResponse); }
    var extensionsValid := OcspExtensionsValid(basic);
    result := Ok(Conclude(basic, inputs, t, policy, states.value, matching.value, extensionsValid));
  }
}
