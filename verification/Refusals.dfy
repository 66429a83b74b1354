/** Which cause gets which answer (src/http.rs): the status and the code of every
    refusal of the decrypt routes, told of what the request was answered and not
    of the steps that decide it. */
module Refusals {
  import opened Options
  import opened Lwe
  import opened Radix
  import opened RadixRoundTrip
  import opened Commitment
  import opened Handles
  import opened Pipeline

  type Reply = Result<Plaintext, Response>

  /** Refused for good: a status, and the code in the body, which v1 repeats. */
  ghost predicate Refused(r: Reply, api: ApiVersion, status: nat, code: Code)
  {
    && r.Failure? && r.error.status == status && r.error.outcome == code && r.error.retryHeader == None
    && r.error.body.Some? && r.error.body.value.error == code
    && r.error.body.value.errorMessage == match api { case V1 => Some(code) case V2 => None }
  }

  /** Told to try again: a bodyless 204 with the reason in a header on v2, a status
      of its own with the reason as the code on v1. */
  ghost predicate TryAgain(r: Reply, api: ApiVersion, reason: RetryReason)
  {
    match api
    case V1 => Refused(r, V1, if reason == Overloaded then 503 else 428, Retry(reason))
    case V2 => r == Failure(Response(204, None, Some(reason), Retry(reason)))
  }

  // ----- What has to go right, in the order in which it is looked at -------------------

  ghost predicate AclPasses(gates: Gates, a: Answers)
  {
    gates.acp ==> a.acp == Allowed
  }

  /** When enforcing, there is a commitment to compare with. */
  ghost predicate CommitmentFound(gates: Gates, a: Answers)
  {
    gates.commitment == Some(false) ==> a.commitment.Success?
  }

  ghost predicate StoredForm(ct: Ct)
  {
    ct.securityZone == 0 && !ct.compact && ct.gzipped
  }

  /** When enforcing, the registry stands behind the bytes. */
  ghost predicate BytesPass(gates: Gates, a: Answers, ct: Ct)
  {
    gates.commitment == Some(false) ==> Committed(a, ct.hash)
  }

  ghost predicate GatesPass(gates: Gates, admitted: bool, a: Answers)
  {
    admitted && AclPasses(gates, a) && CommitmentFound(gates, a)
  }

  /** The declared type exists, and type and zone are the handle's. */
  ghost predicate MetadataPasses(ct: Ct, handle: seq<nat>)
    requires |handle| == 32
  {
    ct.encryptionType in {0, 2, 3, 4, 5, 6, 7} && handle[30] % 128 == ct.encryptionType && handle[31] == 0
  }

  /** Only what decrypts is answered; bytes that do not are the server's fault, a
      panic is ours. */
  ghost predicate DecryptionAnswers(r: Reply, api: ApiVersion, key: DirectKey, ty: EncryptionType, payload: Stored)
    requires key.messageModulus > 0
  {
    match DecryptCompressed(key, ty, payload)
    case Ok(v) => r == Success((v, ty))
    case Err(_) => Refused(r, api, 502, CtSourceError)
    case Panic => Refused(r, api, 500, InternalError)
  }

  // ----- Refusals for good ----------------------------------------------------------------

  /** The ACL's word, once a slot is held. */
  lemma AclRefusals(api: ApiVersion, gates: Gates, key: DirectKey, handle: seq<nat>, a: Answers)
    requires key.messageModulus > 0 && |handle| == 32
    requires !AclPasses(gates, a)
    ensures var r := LadderReply(api, gates, key, handle, true, a);
            match a.acp
            case Denied =>
              if a.presented then Refused(r, api, 401, AcpDenied) else Refused(r, api, 403, NotPubliclyAllowed)
            case UnknownChain => Refused(r, api, 400, UnknownChainCode)
            case Expired => Refused(r, api, 401, AcpExpired)
            case BadSignature => Refused(r, api, 401, AcpInvalid)
            case Malformed => Refused(r, api, 400, AcpMalformed)
            case AcpTimeout => Refused(r, api, 504, AcpVerifierTimeout)
            case AcpTransport | Misconfigured => Refused(r, api, 502, AcpVerifierError)
  {
    hide First;
    UnfoldGates(api, gates, true, a);
  }

  /** An enforcing gate that finds no commitment, once the ACL has allowed. */
  lemma CommitmentRefusals(api: ApiVersion, gates: Gates, key: DirectKey, handle: seq<nat>, a: Answers)
    requires key.messageModulus > 0 && |handle| == 32
    requires AclPasses(gates, a) && !CommitmentFound(gates, a)
    ensures var r := LadderReply(api, gates, key, handle, true, a);
            match a.commitment.error
            case NotFound => TryAgain(r, api, CommitmentPending)
            case Timeout => Refused(r, api, 504, CommitmentVerifierTimeout)
            case Transport => Refused(r, api, 502, CommitmentVerifierError)
  {
    hide First;
    UnfoldGates(api, gates, true, a);
  }

  /** The ciphertext server's word, once both gates have passed. */
  lemma SourceRefusals(api: ApiVersion, gates: Gates, key: DirectKey, handle: seq<nat>, a: Answers)
    requires key.messageModulus > 0 && |handle| == 32
    requires GatesPass(gates, true, a) && !a.source.Served?
    ensures var r := LadderReply(api, gates, key, handle, true, a);
            match a.source
            case Absent => Refused(r, api, 404, CtNotFound)
            case NotReady => TryAgain(r, api, CtNotReady)
            case SourceTimeout => Refused(r, api, 504, CtSourceTimeout)
            case SourceFailure => Refused(r, api, 502, CtSourceError)
  {
    hide First;
    UnfoldGates(api, gates, true, a);
  }

  /** What was served, in the order in which it is looked at: the zone, the form,
      the bytes, the declared type, type and zone against the handle, and at last
      the decryption. */
  lemma ServedRefusals(api: ApiVersion, gates: Gates, key: DirectKey, handle: seq<nat>, a: Answers, ct: Ct)
    requires key.messageModulus > 0 && |handle| == 32
    requires GatesPass(gates, true, a) && a.source == Served(ct)
    ensures var r := LadderReply(api, gates, key, handle, true, a);
            if ct.securityZone != 0 then Refused(r, api, 422, UnsupportedSecurityZone)
            else if ct.compact || !ct.gzipped then Refused(r, api, 502, CtSourceError)
            else if !BytesPass(gates, a, ct) then
              if a.commitment.value.fromCache && a.reread == Failure(NotFound) then TryAgain(r, api, CommitmentPending)
              else Refused(r, api, 502, CommitmentMismatch)
            else if ct.encryptionType !in {0, 2, 3, 4, 5, 6, 7} then Refused(r, api, 422, UnsupportedTypeCode)
            else if handle[30] % 128 != ct.encryptionType then Refused(r, api, 502, CtTypeMismatch)
            else if handle[31] != 0 then Refused(r, api, 502, CtZoneMismatch)
            else
              exists ty: EncryptionType :: ty.Wire() == ct.encryptionType && DecryptionAnswers(r, api, key, ty, ct.payload)
  {
    hide First, DecryptCompressed, EnforceIntegrity, AcpRung, MetadataRung, FromWire;
    UnfoldGates(api, gates, true, a);
    UnfoldCt(api, gates, key, handle, a, ct);
    IntegrityAnswers(api, gates, a, ct);
    AclSilent(api, gates, a);
    hide IntegrityRung, CommitmentRung, Committed, Expected;
    if ct.securityZone == 0 {
      MetadataAnswers(api, ct, handle);
    }
    if ct.securityZone == 0 && ct.encryptionType in {0, 2, 3, 4, 5, 6, 7} {
      var ty := FromWire(ct.encryptionType).value;
      WireRoundTrip(ct.encryptionType, ty);
      assert ty.Wire() == ct.encryptionType && (DecryptRung(api, key, ct).None? ==> Decrypted(key, ct).Ok?);
    }
  }

  lemma AclSilent(api: ApiVersion, gates: Gates, a: Answers)
    ensures AcpRung(api, gates, a).None? <==> AclPasses(gates, a)
  {
  }

  lemma IntegrityAnswers(api: ApiVersion, gates: Gates, a: Answers, ct: Ct)
    requires CommitmentFound(gates, a)
    ensures CommitmentRung(api, gates, a).None?
    ensures IntegrityRung(api, gates, a, ct)
         == if BytesPass(gates, a, ct) then None
            else if a.commitment.value.fromCache && a.reread == Failure(NotFound) then Some(Retryable(api, CommitmentPending))
            else Some(Refuse(api, 502, CommitmentMismatch))
  {
  }

  lemma MetadataAnswers(api: ApiVersion, ct: Ct, handle: seq<nat>)
    requires |handle| == 32 && ct.securityZone == 0
    ensures MetadataRung(api, ct, handle)
         == if ct.encryptionType !in {0, 2, 3, 4, 5, 6, 7} then Some(Refuse(api, 422, UnsupportedTypeCode))
            else if handle[30] % 128 != ct.encryptionType then Some(Refuse(api, 502, CtTypeMismatch))
            else if handle[31] != 0 then Some(Refuse(api, 502, CtZoneMismatch))
            else None
    ensures ct.encryptionType in {0, 2, 3, 4, 5, 6, 7} ==> FromWire(ct.encryptionType).Ok?
  {
  }

  /** Only the compressed form of the kind that the handle's type names is ever
      served; other bytes that pass all the checks before are the server's fault. */
  lemma OnlyItsFormIsServed(api: ApiVersion, gates: Gates, key: DirectKey, handle: seq<nat>, a: Answers, ct: Ct, ty: EncryptionType)
    requires key.messageModulus > 0 && |handle| == 32 && a.source == Served(ct) && ty.Wire() == ct.encryptionType
    ensures forall p :: Cleared(gates, key, handle, a, p) ==> KindOf(p.1, ct.payload) && !IsSeeded(ct.payload)
    ensures (&& GatesPass(gates, true, a) && StoredForm(ct) && BytesPass(gates, a, ct) && MetadataPasses(ct, handle)
             && (!KindOf(ty, ct.payload) || IsSeeded(ct.payload))) ==>
              Refused(LadderReply(api, gates, key, handle, true, a), api, 502, CtSourceError)
  {
    hide LadderReply, DecryptCompressed, BytesPass, Committed;
    forall p | Cleared(gates, key, handle, a, p)
      ensures KindOf(p.1, ct.payload) && !IsSeeded(ct.payload)
    {
      FormDecides(key, p.1, ct.payload);
    }
    if GatesPass(gates, true, a) && StoredForm(ct) && BytesPass(gates, a, ct) && MetadataPasses(ct, handle) {
      ServedRefusals(api, gates, key, handle, a, ct);
      var declared: EncryptionType :| declared.Wire() == ct.encryptionType
        && DecryptionAnswers(LadderReply(api, gates, key, handle, true, a), api, key, declared, ct.payload);
      WireRoundTrip(ct.encryptionType, declared);
      WireRoundTrip(ct.encryptionType, ty);
      FormDecides(key, ty, ct.payload);
    }
  }

  // ----- Reasons to retry -------------------------------------------------------------------

  /** Each reason to try again is given for its own cause and for nothing else: no
      slot; a ciphertext that is not there yet once both gates have passed; an
      enforcing gate for which the registry has no commitment, at the gate or when
      it is read again. */
  lemma RetryReasons(api: ApiVersion, gates: Gates, key: DirectKey, handle: seq<nat>, admitted: bool, a: Answers)
    requires key.messageModulus > 0 && |handle| == 32
    ensures var r := LadderReply(api, gates, key, handle, admitted, a);
            && (TryAgain(r, api, Overloaded) <==> !admitted)
            && (TryAgain(r, api, CtNotReady) <==> GatesPass(gates, admitted, a) && a.source == NotReady)
            && (TryAgain(r, api, CommitmentPending) <==>
                  && admitted && AclPasses(gates, a) && gates.commitment == Some(false)
                  && (a.commitment == Failure(NotFound) || GoneWhenReadAgain(a)))
            && (r.Failure? && r.error.outcome.Retry? ==> TryAgain(r, api, r.error.outcome.reason))
            && (r.Failure? && r.error.status in {204, 428, 503} ==> r.error.outcome.Retry?)
  {
    hide LadderReply;
    if !admitted {
      Overload(api, gates, key, handle, a);
    } else if !AclPasses(gates, a) {
      AclRefusals(api, gates, key, handle, a);
    } else if !CommitmentFound(gates, a) {
      CommitmentRefusals(api, gates, key, handle, a);
    } else if !a.source.Served? {
      SourceRefusals(api, gates, key, handle, a);
    } else {
      ServedRefusals(api, gates, key, handle, a, a.source.ct);
    }
  }

  lemma Overload(api: ApiVersion, gates: Gates, key: DirectKey, handle: seq<nat>, a: Answers)
    requires key.messageModulus > 0 && |handle| == 32
    ensures TryAgain(LadderReply(api, gates, key, handle, false, a), api, Overloaded)
  {
    UnfoldGates(api, gates, false, a);
  }

  /** Well-formed bytes that contradict a cached commitment, of which the registry
      knows nothing any more. */
  ghost predicate GoneWhenReadAgain(a: Answers)
  {
    && a.commitment.Success? && a.commitment.value.fromCache && a.reread == Failure(NotFound)
    && a.source.Served? && StoredForm(a.source.ct) && a.source.ct.hash != a.commitment.value.hash
  }
}
