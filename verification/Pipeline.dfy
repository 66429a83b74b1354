/** The common path of the decrypt routes (src/http.rs): admission, the two
    gates, the ciphertext fetch, the metadata cross-checks and the decryption,
    and how each refusal is encoded for the two API generations. What the ACL,
    the registry and the ciphertext server answer are inputs. */
module Pipeline {
  import Arith
  import opened Options
  import opened Lwe
  import opened Radix
  import opened RadixRoundTrip
  import opened Commitment
  import opened Handles

  // ----- Responses ------------------------------------------------------------------

  datatype ApiVersion = V1 | V2

  datatype RetryReason = Overloaded | CtNotReady | CommitmentPending

  /** The stable error codes; the reasons to retry are codes too. */
  datatype Code =
    | Retry(reason: RetryReason)
    | AcpDenied | NotPubliclyAllowed | UnknownChainCode | AcpExpired | AcpInvalid | AcpMalformed
    | AcpVerifierTimeout | AcpVerifierError
    | CommitmentVerifierTimeout | CommitmentVerifierError | CommitmentMismatch
    | CtNotFound | CtSourceTimeout | CtSourceError
    | UnsupportedSecurityZone | UnsupportedTypeCode | CtTypeMismatch | CtZoneMismatch
    | InternalError
    | BadRequest
    | SigningFailed

  /** v1 repeats the code as `error_message`. */
  datatype Body = Body(error: Code, errorMessage: Option<Code>)

  /** `outcome` labels the response for the metrics and never reaches the wire. */
  datatype Response = Response(status: nat, body: Option<Body>, retryHeader: Option<RetryReason>, outcome: Code)

  function V1Status(reason: RetryReason): (r: nat)
  {
    match reason
    case Overloaded => 503
    case CtNotReady | CommitmentPending => 428
  }

  /** `ApiVersion::err`. */
  function Refuse(api: ApiVersion, status: nat, code: Code): (r: Response)
  {
    Response(status, Some(Body(code, if api == V1 then Some(code) else None)), None, code)
  }

  /** `ApiVersion::retryable`. */
  function Retryable(api: ApiVersion, reason: RetryReason): (r: Response)
  {
    match api
    case V2 => Response(204, None, Some(reason), Retry(reason))
    case V1 => Refuse(api, V1Status(reason), Retry(reason))
  }

  // ----- What the outside answers -----------------------------------------------------

  datatype AcpAnswer =
    | Allowed | Denied | UnknownChain | Expired | BadSignature | Malformed | AcpTimeout | AcpTransport | Misconfigured

  /** The served bytes are known by what they hash to and what they decode to. */
  datatype Ct = Ct(securityZone: int, encryptionType: int, compact: bool, gzipped: bool, hash: Hash, payload: Stored)

  datatype SourceAnswer = Served(ct: Ct) | Absent | NotReady | SourceTimeout | SourceFailure

  /** Everything a request hears: `presented` says whether it carries an ACP;
      `reread` is used only if the registry is read a second time. */
  datatype Answers = Answers(
    presented: bool,
    acp: AcpAnswer,
    commitment: Result<Fetched, CommitmentError>,
    source: SourceAnswer,
    reread: Result<Hash, CommitmentError>)

  /** Which gates were configured at boot; the commitment gate with its
      warn-only switch. */
  datatype Gates = Gates(acp: bool, commitment: Option<bool>)

  type Plaintext = (nat, EncryptionType)

  // ----- The rungs of the ladder -------------------------------------------------------

  /** `enforce_acp`: None lets the request go on. */
  function EnforceAcp(api: ApiVersion, presented: bool, answer: AcpAnswer): (r: Option<Response>)
  {
    match answer
    case Allowed => None
    case Denied => Some(if presented then Refuse(api, 401, AcpDenied) else Refuse(api, 403, NotPubliclyAllowed))
    case UnknownChain => Some(Refuse(api, 400, UnknownChainCode))
    case Expired => Some(Refuse(api, 401, AcpExpired))
    case BadSignature => Some(Refuse(api, 401, AcpInvalid))
    case Malformed => Some(Refuse(api, 400, AcpMalformed))
    case AcpTimeout => Some(Refuse(api, 504, AcpVerifierTimeout))
    case AcpTransport | Misconfigured => Some(Refuse(api, 502, AcpVerifierError))
  }

  function VerdictResponse(api: ApiVersion, v: Verdict): (r: Option<Response>)
  {
    match v
    case Pass | Unchecked => None
    case Pending => Some(Retryable(api, CommitmentPending))
    case VerifierTimeout => Some(Refuse(api, 504, CommitmentVerifierTimeout))
    case VerifierError => Some(Refuse(api, 502, CommitmentVerifierError))
    case Mismatch => Some(Refuse(api, 502, CommitmentMismatch))
  }

  function AcpRung(api: ApiVersion, gates: Gates, a: Answers): (r: Option<Response>)
  {
    if gates.acp then EnforceAcp(api, a.presented, a.acp) else None
  }

  function CommitmentRung(api: ApiVersion, gates: Gates, a: Answers): (r: Option<Response>)
  {
    if gates.commitment.None? then None
    else
      match EnforceCommitment(a.commitment, gates.commitment.value)
      case Success(_) => None
      case Failure(v) => VerdictResponse(api, v)
  }

  /** What the integrity check will compare against, if it runs. */
  function Expected(gates: Gates, a: Answers): (r: Option<Fetched>)
  {
    if gates.commitment.None? then None
    else
      match EnforceCommitment(a.commitment, gates.commitment.value)
      case Success(expected) => expected
      case Failure(_) => None
  }

  function SourceRung(api: ApiVersion, source: SourceAnswer): (r: Option<Response>)
  {
    match source
    case Served(_) => None
    case Absent => Some(Refuse(api, 404, CtNotFound))
    case NotReady => Some(Retryable(api, CtNotReady))
    case SourceTimeout => Some(Refuse(api, 504, CtSourceTimeout))
    case SourceFailure => Some(Refuse(api, 502, CtSourceError))
  }

  /** Zone 0 only, and only the stored compressed form. */
  function FormRung(api: ApiVersion, ct: Ct): (r: Option<Response>)
  {
    if ct.securityZone != 0 then Some(Refuse(api, 422, UnsupportedSecurityZone))
    else if ct.compact || !ct.gzipped then Some(Refuse(api, 502, CtSourceError))
    else None
  }

  function IntegrityRung(api: ApiVersion, gates: Gates, a: Answers, ct: Ct): (r: Option<Response>)
  {
    match Expected(gates, a)
    case None => None
    case Some(fetched) =>
      VerdictResponse(api, EnforceIntegrity(fetched, ct.hash, a.reread, gates.commitment == Some(true)))
  }

  /** `KeyStore::client_key`: only zone 0 has one. */
  predicate HasKey(zone: int)
  {
    zone == 0
  }

  /** The declared type and zone against what exists and against the handle. */
  function MetadataRung(api: ApiVersion, ct: Ct, handle: seq<nat>): (r: Option<Response>)
    requires |handle| == 32
  {
    if !HasKey(ct.securityZone) then Some(Refuse(api, 422, UnsupportedSecurityZone))
    else if !FromWire(ct.encryptionType).Ok? then Some(Refuse(api, 422, UnsupportedTypeCode))
    else if HandleType(handle) != ct.encryptionType then Some(Refuse(api, 502, CtTypeMismatch))
    else if HandleZone(handle) != ct.securityZone then Some(Refuse(api, 502, CtZoneMismatch))
    else None
  }

  function Decrypted(key: DirectKey, ct: Ct): (r: Outcome<nat>)
    requires key.messageModulus > 0
  {
    match FromWire(ct.encryptionType)
    case Ok(ty) => DecryptCompressed(key, ty, ct.payload)
    case _ => Err(UnsupportedType(ct.encryptionType))
  }

  /** A decode failure is the upstream's fault, a panic is ours. */
  function DecryptRung(api: ApiVersion, key: DirectKey, ct: Ct): (r: Option<Response>)
    requires key.messageModulus > 0
  {
    match Decrypted(key, ct)
    case Ok(_) => None
    case Err(_) => Some(Refuse(api, 502, CtSourceError))
    case Panic => Some(Refuse(api, 500, InternalError))
  }

  // ----- The order of the rungs --------------------------------------------------------

  function First(rungs: seq<Option<Response>>): (r: Option<Response>)
  {
    if rungs == [] then None else if rungs[0].Some? then rungs[0] else First(rungs[1..])
  }

  function GateRungs(api: ApiVersion, gates: Gates, admitted: bool, a: Answers): (r: seq<Option<Response>>)
  {
    [if admitted then None else Some(Retryable(api, Overloaded)),
     AcpRung(api, gates, a), CommitmentRung(api, gates, a), SourceRung(api, a.source)]
  }

  function CtRungs(api: ApiVersion, gates: Gates, key: DirectKey, handle: seq<nat>, a: Answers, ct: Ct): (r: seq<Option<Response>>)
    requires key.messageModulus > 0 && |handle| == 32
  {
    [FormRung(api, ct), IntegrityRung(api, gates, a, ct), MetadataRung(api, ct, handle), DecryptRung(api, key, ct)]
  }

  /** The refusal a request gets: that of the earliest failing rung. */
  function FirstRefusal(api: ApiVersion, gates: Gates, key: DirectKey, handle: seq<nat>, admitted: bool, a: Answers): (r: Option<Response>)
    requires key.messageModulus > 0 && |handle| == 32
  {
    if First(GateRungs(api, gates, admitted, a)).Some? || !a.source.Served? then First(GateRungs(api, gates, admitted, a))
    else First(CtRungs(api, gates, key, handle, a, a.source.ct))
  }

  /** The reply the order of the rungs gives: the earliest refusal, or the plaintext. */
  function LadderReply(api: ApiVersion, gates: Gates, key: DirectKey, handle: seq<nat>, admitted: bool, a: Answers)
    : (r: Result<Plaintext, Response>)
    requires key.messageModulus > 0 && |handle| == 32
  {
    match FirstRefusal(api, gates, key, handle, admitted, a)
    case Some(response) => Failure(response)
    case None =>
      ServedIff(api, gates, key, handle, admitted, a);
      Success((Decrypted(key, a.source.ct).value, FromWire(a.source.ct.encryptionType).value))
  }

  /** When a plaintext leaves, and which: the condition the service is for. */
  ghost predicate Cleared(gates: Gates, key: DirectKey, handle: seq<nat>, a: Answers, p: Plaintext)
    requires key.messageModulus > 0 && |handle| == 32
  {
    && (gates.acp ==> a.acp == Allowed)
    && a.source.Served?
    && var ct := a.source.ct;
    && (gates.commitment == Some(false) ==> Committed(a, ct.hash))
    && ct.gzipped && !ct.compact
    && ct.encryptionType == p.1.Wire() == HandleType(handle)
    && ct.securityZone == 0 == HandleZone(handle)
    && DecryptCompressed(key, p.1, ct.payload) == Ok(p.0)
  }

  /** The registry stands behind these bytes: its answer is their hash, or the
      cached answer is, or a second reading is where the cached one is not. */
  ghost predicate Committed(a: Answers, hash: Hash)
  {
    && a.commitment.Success?
    && (a.commitment.value.hash == hash || (a.commitment.value.fromCache && a.reread == Success(hash)))
  }

  // ----- The service ---------------------------------------------------------------------

  class Service {
    const gates: Gates
    const key: DirectKey
    const admit: nat
    var slots: nat

    ghost predicate Valid()
      reads this
    {
      slots <= admit && key.messageModulus > 0
    }

    constructor (gates: Gates, key: DirectKey, admit: nat)
      requires key.messageModulus > 0
      ensures Valid() && this.gates == gates && this.key == key && slots == this.admit >= 1
      ensures admit >= 1 ==> this.admit == admit
    {
      this.gates, this.key := gates, key;
      this.admit := if admit == 0 then 1 else admit;
      this.slots := if admit == 0 then 1 else admit;
    }

    method TryAcquire() returns (ok: bool)
      requires Valid()
      modifies this`slots
      ensures Valid()
      ensures ok <==> old(slots) > 0
      ensures slots == if ok then old(slots) - 1 else old(slots)
    {
      if slots == 0 {
        return false;
      }
      slots := slots - 1;
      return true;
    }

    /** `fetch_decrypt`: a plaintext leaves exactly when every condition holds,
        otherwise the earliest refusal does, and every way out frees the slot. */
    method FetchDecrypt(api: ApiVersion, handle: seq<nat>, a: Answers) returns (r: Result<Plaintext, Response>)
      requires Valid() && |handle| == 32
      modifies this`slots
      ensures Valid() && slots == old(slots)
      ensures r.Success? ==> old(slots) > 0 && Cleared(gates, key, handle, a, r.value)
      ensures forall p :: old(slots) > 0 && Cleared(gates, key, handle, a, p) ==> r == Success(p)
      ensures r.Failure? ==> Some(r.error) == FirstRefusal(api, gates, key, handle, old(slots) > 0, a)
      ensures r == LadderReply(api, gates, key, handle, old(slots) > 0, a)
    {
      ServedIff(api, gates, key, handle, slots > 0, a);
      UnfoldGates(api, gates, false, a);
      var admitted := TryAcquire();
      if !admitted {
        return Failure(Retryable(api, Overloaded));
      }
      r := Serve(api, handle, a);
      slots := slots + 1;
    }

    /** The body of `fetch_decrypt` once a slot is held. */
    method Serve(api: ApiVersion, handle: seq<nat>, a: Answers) returns (r: Result<Plaintext, Response>)
      requires Valid() && |handle| == 32
      ensures r.Failure? <==> FirstRefusal(api, gates, key, handle, true, a).Some?
      ensures r.Failure? ==> Some(r.error) == FirstRefusal(api, gates, key, handle, true, a)
      ensures r.Success? ==> a.source.Served? && Ok(r.value.1) == FromWire(a.source.ct.encryptionType)
                             && Ok(r.value.0) == Decrypted(key, a.source.ct)
    {
      hide DecryptCompressed, EnforceIntegrity, HandleType, HandleZone;
      UnfoldGates(api, gates, true, a);
      var expected: Option<Fetched> := None;
      if gates.acp || gates.commitment.Some? {
        var acpResponse := if gates.acp then EnforceAcp(api, a.presented, a.acp) else None;
        var commitmentResult :=
          if gates.commitment.Some? then EnforceCommitment(a.commitment, gates.commitment.value) else Success(None);
        if acpResponse.Some? {
          return Failure(acpResponse.value);
        }
        match commitmentResult
        case Success(e) => expected := e;
        case Failure(v) => return Failure(VerdictResponse(api, v).value);
      }
      if !a.source.Served? {
        return Failure(SourceRung(api, a.source).value);
      }
      var ct := a.source.ct;
      UnfoldCt(api, gates, key, handle, a, ct);
      var form := FormRung(api, ct);
      if form.Some? {
        return Failure(form.value);
      }
      if expected.Some? {
        var verdict := EnforceIntegrity(expected.value, ct.hash, a.reread, gates.commitment == Some(true));
        if VerdictResponse(api, verdict).Some? {
          return Failure(VerdictResponse(api, verdict).value);
        }
      }
      var metadata := MetadataRung(api, ct, handle);
      if metadata.Some? {
        return Failure(metadata.value);
      }
      var ty := FromWire(ct.encryptionType).value;
      match DecryptCompressed(key, ty, ct.payload)
      case Ok(value) => return Success((value, ty));
      case Err(_) => return Failure(Refuse(api, 502, CtSourceError));
      case Panic => return Failure(Refuse(api, 500, InternalError));
    }
  }

  lemma UnfoldGates(api: ApiVersion, gates: Gates, admitted: bool, a: Answers)
    ensures First(GateRungs(api, gates, admitted, a))
         == if !admitted then Some(Retryable(api, Overloaded))
            else if AcpRung(api, gates, a).Some? then AcpRung(api, gates, a)
            else if CommitmentRung(api, gates, a).Some? then CommitmentRung(api, gates, a)
            else SourceRung(api, a.source)
  {
    Four(if admitted then None else Some(Retryable(api, Overloaded)),
         AcpRung(api, gates, a), CommitmentRung(api, gates, a), SourceRung(api, a.source));
  }

  lemma UnfoldCt(api: ApiVersion, gates: Gates, key: DirectKey, handle: seq<nat>, a: Answers, ct: Ct)
    requires key.messageModulus > 0 && |handle| == 32
    ensures First(CtRungs(api, gates, key, handle, a, ct))
         == if FormRung(api, ct).Some? then FormRung(api, ct)
            else if IntegrityRung(api, gates, a, ct).Some? then IntegrityRung(api, gates, a, ct)
            else if MetadataRung(api, ct, handle).Some? then MetadataRung(api, ct, handle)
            else DecryptRung(api, key, ct)
  {
    Four(FormRung(api, ct), IntegrityRung(api, gates, a, ct), MetadataRung(api, ct, handle), DecryptRung(api, key, ct));
  }

  lemma Four(w: Option<Response>, x: Option<Response>, y: Option<Response>, z: Option<Response>)
    ensures First([w, x, y, z]) == if w.Some? then w else if x.Some? then x else if y.Some? then y else z
  {
    FirstCons(w, [x, y, z]);
    FirstCons(x, [y, z]);
    FirstCons(y, [z]);
    FirstCons(z, []);
    assert [w, x, y, z] == [w] + [x, y, z] && [x, y, z] == [x] + [y, z] && [y, z] == [y] + [z] && [z] == [z] + [];
  }

  lemma FirstCons(rung: Option<Response>, rest: seq<Option<Response>>)
    ensures First([rung] + rest) == if rung.Some? then rung else First(rest)
  {
    assert ([rung] + rest)[1..] == rest;
  }

  // ----- Safety ------------------------------------------------------------------------------

  /** The integrity check lets bytes through exactly when the registry stands
      behind them, or when it only warns. */
  lemma IntegrityExact(fetched: Fetched, hash: Hash, reread: Result<Hash, CommitmentError>, warnOnly: bool)
    ensures EnforceIntegrity(fetched, hash, reread, warnOnly) in {Pass, Unchecked}
       <==> (warnOnly || fetched.hash == hash || (fetched.fromCache && reread == Success(hash)))
    ensures EnforceIntegrity(fetched, hash, reread, warnOnly) in {Pass, Unchecked, Pending, Mismatch}
  {
  }

  lemma CommitmentRungsExact(api: ApiVersion, gates: Gates, a: Answers, ct: Ct)
    ensures CommitmentRung(api, gates, a).None? && IntegrityRung(api, gates, a, ct).None?
       <==> (gates.commitment == Some(false) ==> Committed(a, ct.hash))
  {
    hide EnforceIntegrity;
    if a.commitment.Success? {
      IntegrityExact(a.commitment.value, ct.hash, a.reread, gates.commitment == Some(true));
    }
  }

  /** Nothing refuses exactly when some plaintext is cleared, which is then the
      one decrypted. */
  lemma ServedIff(api: ApiVersion, gates: Gates, key: DirectKey, handle: seq<nat>, admitted: bool, a: Answers)
    requires key.messageModulus > 0 && |handle| == 32
    ensures forall p: Plaintext :: Cleared(gates, key, handle, a, p) && admitted ==>
              && FirstRefusal(api, gates, key, handle, admitted, a).None?
              && FromWire(a.source.ct.encryptionType) == Ok(p.1) && Decrypted(key, a.source.ct) == Ok(p.0)
    ensures FirstRefusal(api, gates, key, handle, admitted, a).None? ==>
              && admitted && a.source.Served? && FromWire(a.source.ct.encryptionType).Ok? && Decrypted(key, a.source.ct).Ok?
              && Cleared(gates, key, handle, a, (Decrypted(key, a.source.ct).value, FromWire(a.source.ct.encryptionType).value))
  {
    hide DecryptCompressed, EnforceIntegrity, HandleType, HandleZone, First, Committed;
    UnfoldGates(api, gates, admitted, a);
    if a.source.Served? {
      var ct := a.source.ct;
      UnfoldCt(api, gates, key, handle, a, ct);
      CommitmentRungsExact(api, gates, a, ct);
      hide CommitmentRung, IntegrityRung;
      forall ty: EncryptionType
        ensures FromWire(ct.encryptionType) == Ok(ty) <==> ct.encryptionType == ty.Wire()
      {
        WireRoundTrip(ct.encryptionType, ty);
      }
    }
  }

  /** The type that is signed is the one the handle commits to, and the value
      fits its rounded-up width. */
  lemma ServedTypeIsCommitted(gates: Gates, key: DirectKey, handle: seq<nat>, a: Answers, p: Plaintext)
    requires UsableModulus(key) && |handle| == 32 && Cleared(gates, key, handle, a, p)
    ensures p.1.Wire() == HandleType(handle) && HandleZone(handle) == 0
    ensures TrailingZeros(key.messageModulus) > 0
    ensures p.0 < Arith.Pow2(NextMultiple(p.1.Bits(), TrailingZeros(key.messageModulus)))
  {
    hide HandleType, HandleZone, DecryptCompressed, Committed;
    WidthGuard(key, p.1, a.source.ct.payload);
  }

  /** A gate only ever takes away: what is served with it is served without it,
      and is the same. */
  lemma GatesOnlyRefuse(strict: Gates, lax: Gates, key: DirectKey, handle: seq<nat>, a: Answers, p: Plaintext)
    requires key.messageModulus > 0 && |handle| == 32
    requires lax.acp ==> strict.acp
    requires lax.commitment == Some(false) ==> strict.commitment == Some(false)
    requires Cleared(strict, key, handle, a, p)
    ensures Cleared(lax, key, handle, a, p)
    ensures forall api :: FirstRefusal(api, lax, key, handle, true, a).None?
  {
    forall api: ApiVersion
      ensures FirstRefusal(api, lax, key, handle, true, a).None?
    {
      ServedIff(api, lax, key, handle, true, a);
    }
  }

  /** A warn-only commitment gate answers like no commitment gate at all. */
  lemma WarnOnlyIsNoGate(api: ApiVersion, acp: bool, key: DirectKey, handle: seq<nat>, admitted: bool, a: Answers)
    requires key.messageModulus > 0 && |handle| == 32
    ensures FirstRefusal(api, Gates(acp, Some(true)), key, handle, admitted, a) == FirstRefusal(api, Gates(acp, None), key, handle, admitted, a)
  {
    hide DecryptRung, MetadataRung, EnforceIntegrity, First;
    var warn, off := Gates(acp, Some(true)), Gates(acp, None);
    UnfoldGates(api, warn, admitted, a);
    UnfoldGates(api, off, admitted, a);
    if a.source.Served? {
      UnfoldCt(api, warn, key, handle, a, a.source.ct);
      UnfoldCt(api, off, key, handle, a, a.source.ct);
      if a.commitment.Success? {
        IntegrityExact(a.commitment.value, a.source.ct.hash, a.reread, true);
      }
    }
  }

  /** An enabled gate does not always leave something to compare with: in
      warn-only mode a failed lookup skips the integrity check. */
  lemma ExpectationIff(api: ApiVersion, gates: Gates, a: Answers)
    ensures Expected(gates, a).Some? <==> gates.commitment.Some? && a.commitment.Success?
    ensures gates.commitment.Some? && Expected(gates, a).None? && CommitmentRung(api, gates, a).None? <==>
            gates.commitment == Some(true) && a.commitment.Failure?
  {
  }

  // ----- The two API generations ----------------------------------------------------------------

  /** The same refusal, encoded for v1 and for v2. */
  ghost predicate SameRefusal(one: Response, two: Response)
  {
    && one.outcome == two.outcome
    && one.status >= 400 && one.retryHeader == None && one.body == Some(Body(one.outcome, Some(one.outcome)))
    && (two.status == 204 <==> two.outcome.Retry?)
    && (if two.outcome.Retry? then two.body == None && two.retryHeader == Some(two.outcome.reason)
        else two.status == one.status && two.retryHeader == None && two.body == Some(Body(two.outcome, None)))
  }

  ghost predicate SameRung(one: Option<Response>, two: Option<Response>)
  {
    (one.Some? <==> two.Some?) && (one.Some? ==> SameRefusal(one.value, two.value))
  }

  lemma SameGateRungs(gates: Gates, admitted: bool, a: Answers)
    ensures SameRung(First(GateRungs(V1, gates, admitted, a)), First(GateRungs(V2, gates, admitted, a)))
  {
    hide AcpRung, CommitmentRung, First;
    UnfoldGates(V1, gates, admitted, a);
    UnfoldGates(V2, gates, admitted, a);
    SameAcpRung(gates, a);
    SameCommitmentRung(gates, a);
    assert SameRung(SourceRung(V1, a.source), SourceRung(V2, a.source));
    assert SameRefusal(Retryable(V1, Overloaded), Retryable(V2, Overloaded));
    hide SourceRung, SameRefusal;
  }

  lemma SameAcpRung(gates: Gates, a: Answers)
    ensures SameRung(AcpRung(V1, gates, a), AcpRung(V2, gates, a))
  {
  }

  lemma SameCommitmentRung(gates: Gates, a: Answers)
    ensures SameRung(CommitmentRung(V1, gates, a), CommitmentRung(V2, gates, a))
  {
  }

  lemma SameCtRungs(gates: Gates, key: DirectKey, handle: seq<nat>, a: Answers, ct: Ct)
    requires key.messageModulus > 0 && |handle| == 32
    ensures SameRung(First(CtRungs(V1, gates, key, handle, a, ct)), First(CtRungs(V2, gates, key, handle, a, ct)))
  {
    hide DecryptCompressed, EnforceIntegrity, HandleType, HandleZone, First, IntegrityRung, MetadataRung;
    UnfoldCt(V1, gates, key, handle, a, ct);
    UnfoldCt(V2, gates, key, handle, a, ct);
    SameIntegrityRung(gates, a, ct);
    SameMetadataRung(ct, handle);
    assert SameRung(FormRung(V1, ct), FormRung(V2, ct));
    assert SameRung(DecryptRung(V1, key, ct), DecryptRung(V2, key, ct));
    hide FormRung, DecryptRung, SameRefusal;
  }

  lemma SameIntegrityRung(gates: Gates, a: Answers, ct: Ct)
    ensures SameRung(IntegrityRung(V1, gates, a, ct), IntegrityRung(V2, gates, a, ct))
  {
    hide EnforceIntegrity, Expected;
  }

  lemma SameMetadataRung(ct: Ct, handle: seq<nat>)
    requires |handle| == 32
    ensures SameRung(MetadataRung(V1, ct, handle), MetadataRung(V2, ct, handle))
  {
    hide HandleType, HandleZone, FromWire;
  }

  /** On the same answers v1 and v2 refuse together and with the same code; v2
      answers a bodyless 204 exactly when the request is worth retrying, and v1
      never does. */
  lemma VersionsAgree(gates: Gates, key: DirectKey, handle: seq<nat>, admitted: bool, a: Answers)
    requires key.messageModulus > 0 && |handle| == 32
    ensures SameRung(FirstRefusal(V1, gates, key, handle, admitted, a), FirstRefusal(V2, gates, key, handle, admitted, a))
  {
    SameGateRungs(gates, admitted, a);
    if a.source.Served? {
      SameCtRungs(gates, key, handle, a, a.source.ct);
    }
  }

  // ----- From the client's digits to the answer -------------------------------------------------------

  /** A served integer whose stored form encrypts digits of the message modulus
      reads, written out at its type's width, as the number the digits spell. */
  lemma ServedIsEncrypted(gates: Gates, key: DirectKey, handle: seq<nat>, a: Answers, p: Plaintext, ct: RadixCt, ds: seq<nat>)
    requires UsableKey(key) && |handle| == 32 && Cleared(gates, key, handle, a, p)
    requires a.source.ct.payload == StoredUint(ModulusSwitched(ct))
    requires EncryptsDigits(key, ct, ds) && AreDigits(ds, key.messageModulus)
    requires key.messageModulus <= 2 * key.carryModulus && TrailingZeros(key.messageModulus) > 0
    requires p.1.Bits() % TrailingZeros(key.messageModulus) == 0
    ensures p.1 != TBool && Accepted(|ds|, TrailingZeros(key.messageModulus), p.1)
    ensures ReadBigEndian(Encode(p.1, p.0)) == Positional(ds, key.messageModulus)
  {
    hide Committed, HandleType, HandleZone, EncryptsDigits, Encode;
    DigitsDecode(key, ct, ds);
    AcceptedIff(key, ct, p.1);
    UintEndToEnd(key, ct, ds, p.1);
  }
}
