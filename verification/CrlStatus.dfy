/** The decision procedure of src/pem.rs for certificate revocation lists, and its answers over time. */
module CrlStatus {
  import opened Wrappers
  import opened Model
  import opened Serial
  import opened OcspStatus

  datatype CrlEntry = CrlEntry(rawSerial: seq<Byte>, revocationDate: int, removeFromCrl: bool)

  datatype RevocationList = RevocationList(
    issuer: seq<Byte>,
    outerAlgorithm: string,
    signedAlgorithm: string,
    signature: SignatureOutcome,
    lastUpdate: int,
    nextUpdate: Option<int>,
    entries: seq<CrlEntry>)

  datatype CrlStatusResult = CrlStatusResult(
    signature: CheckResult, issuer: CheckResult, freshness: CheckResult, revocation: CheckResult)

  predicate IssuerMatches(certificate: Certificate, issuer: Certificate, crl: RevocationList) {
    && certificate.issuer == issuer.subject
    && crl.issuer == issuer.subject
    && certificate.outerAlgorithm == certificate.signedAlgorithm
    && certificate.issuerSignature.Valid?
  }

  /** crlSign is the issuer's key usage; without the extension the issuer may sign. */
  predicate SignatureIsValid(crl: RevocationList, crlSign: Usage) {
    && crl.outerAlgorithm == crl.signedAlgorithm
    && (crlSign.Absent? || crlSign == Stated(true))
    && crl.signature.Valid?
  }

  predicate CrlIsFresh(crl: RevocationList, t: int) {
    crl.lastUpdate <= t && crl.nextUpdate.Some? && t < crl.nextUpdate.value
  }

  predicate Lists(entry: CrlEntry, certificate: Certificate) {
    !entry.removeFromCrl && NormalizedSerial(entry.rawSerial) == NormalizedSerial(certificate.rawSerial)
  }

  predicate IsRevoked(crl: RevocationList, certificate: Certificate, t: int) {
    exists entry | entry in crl.entries :: entry.revocationDate <= t && Lists(entry, certificate)
  }

  function CheckCrlStatus(certificate: Certificate, issuer: Certificate, crlSign: Usage, crl: RevocationList, t: I64)
    : CrlStatusResult
  {
    var issuerMatches := IssuerMatches(certificate, issuer, crl);
    var signatureValid := SignatureIsValid(crl, crlSign);
    var isFresh := CrlIsFresh(crl, t);
    CrlStatusResult(
      Observe(StateOf(signatureValid)),
      Observe(StateOf(issuerMatches)),
      Observe(StateOf(isFresh)),
      Observe(if issuerMatches && signatureValid && isFresh then
                if IsRevoked(crl, certificate, t) then CheckState.Fail else CheckState.Pass
              else CheckState.Indeterminate))
  }

  /** The certificate and the list are both the issuer's, and the certificate carries its valid signature. */
  ghost predicate IsLinked(certificate: Certificate, issuer: Certificate, crl: RevocationList) {
    && certificate.issuer == crl.issuer == issuer.subject
    && certificate.outerAlgorithm == certificate.signedAlgorithm
    && certificate.issuerSignature == Valid
  }

  /** The list carries a valid signature of an issuer whose key usage, if stated, allows signing lists. */
  ghost predicate IsSigned(crl: RevocationList, crlSign: Usage) {
    && crl.outerAlgorithm == crl.signedAlgorithm
    && crl.signature == Valid
    && crlSign != Undecodable && crlSign != Stated(false)
  }

  /** A list without a next update is never current. */
  ghost predicate IsCurrent(crl: RevocationList, t: int) {
    crl.nextUpdate.Some? && crl.lastUpdate <= t < crl.nextUpdate.value
  }

  /** The entry takes back the certificate with this serial number. */
  ghost predicate Revokes(entry: CrlEntry, certificate: Certificate) {
    !entry.removeFromCrl && Value(entry.rawSerial) == Value(certificate.rawSerial)
  }

  /** An entry lists a certificate by number, however either serial is padded. */
  lemma ListsNumerically(entry: CrlEntry, certificate: Certificate)
    ensures Lists(entry, certificate) <==> Revokes(entry, certificate)
  {
    SerialsMatchNumerically(entry.rawSerial, certificate.rawSerial);
  }

  /** Each field of an answer; revocation stays open exactly if one of the other three fails. */
  lemma FieldsExact(certificate: Certificate, issuer: Certificate, crlSign: Usage, crl: RevocationList, t: I64)
    ensures var r := CheckCrlStatus(certificate, issuer, crlSign, crl, t);
            && r.signature == CheckResult(if IsSigned(crl, crlSign) then CheckState.Pass else CheckState.Fail, Observed)
            && r.issuer
               == CheckResult(if IsLinked(certificate, issuer, crl) then CheckState.Pass else CheckState.Fail, Observed)
            && r.freshness == CheckResult(if IsCurrent(crl, t) then CheckState.Pass else CheckState.Fail, Observed)
            && r.revocation.confidence == Observed
            && (r.revocation.state.Indeterminate? <==>
                  !IsSigned(crl, crlSign) || !IsLinked(certificate, issuer, crl) || !IsCurrent(crl, t))
            && (r.revocation.state.Fail? <==>
                  && IsSigned(crl, crlSign) && IsLinked(certificate, issuer, crl) && IsCurrent(crl, t)
                  && exists entry | entry in crl.entries :: Revokes(entry, certificate) && entry.revocationDate <= t)
            && (r.revocation.state.Pass? <==>
                  && IsSigned(crl, crlSign) && IsLinked(certificate, issuer, crl) && IsCurrent(crl, t)
                  && forall entry | entry in crl.entries && Revokes(entry, certificate) :: t < entry.revocationDate)
  {
    forall entry ensures Lists(entry, certificate) <==> Revokes(entry, certificate) {
      ListsNumerically(entry, certificate);
    }
  }

  /** The first moment some entry revokes the certificate, if any entry ever does. */
  ghost function FirstRevocation(entries: seq<CrlEntry>, certificate: Certificate): (first: Option<int>)
    ensures first.None? ==> forall entry | entry in entries :: !Revokes(entry, certificate)
    ensures first.Some? ==>
              && (exists entry | entry in entries :: Revokes(entry, certificate) && entry.revocationDate == first.value)
              && forall entry | entry in entries && Revokes(entry, certificate) :: first.value <= entry.revocationDate
  {
    if entries == [] then None
    else
      assert forall entry :: entry in entries <==> entry == entries[0] || entry in entries[1..];
      var rest := FirstRevocation(entries[1..], certificate);
      if !Revokes(entries[0], certificate) then rest
      else if rest.None? || entries[0].revocationDate <= rest.value then Some(entries[0].revocationDate)
      else rest
  }

  /**
   * With all else fixed a list passes from its issue until its next update or the certificate's first revocation,
   * whichever comes first, and at no other time; from that revocation on it fails until its next update.
   */
  lemma PassTimesAreOneSpan(certificate: Certificate, issuer: Certificate, crlSign: Usage, crl: RevocationList, t: I64)
    ensures CheckCrlStatus(certificate, issuer, crlSign, crl, t).revocation.state.Pass? <==>
            && IsLinked(certificate, issuer, crl)
            && IsSigned(crl, crlSign)
            && crl.nextUpdate.Some?
            && crl.lastUpdate <= t < crl.nextUpdate.value
            && var first := FirstRevocation(crl.entries, certificate);
               first.None? || t < first.value
    ensures CheckCrlStatus(certificate, issuer, crlSign, crl, t).revocation.state.Fail? <==>
            && IsLinked(certificate, issuer, crl)
            && IsSigned(crl, crlSign)
            && crl.nextUpdate.Some?
            && crl.lastUpdate <= t < crl.nextUpdate.value
            && var first := FirstRevocation(crl.entries, certificate);
               first.Some? && first.value <= t
  {
    FieldsExact(certificate, issuer, crlSign, crl, t);
  }

  lemma RevocationNeverReverts(crl: RevocationList, certificate: Certificate, t: int, later: int)
    requires t <= later && IsRevoked(crl, certificate, t)
    ensures IsRevoked(crl, certificate, later)
  {
  }
}
