/** The decrypt handler around the common path (src/http.rs): the handle is
    parsed before anything else, and what is signed is what was decrypted. */
module DecryptRoute {
  import opened Arith
  import opened Options
  import opened Lwe
  import opened Radix
  import opened RadixRoundTrip
  import opened Handles
  import opened Pipeline

  /** What a served request carries: the plaintext's 32 bytes, the type, and the
      byte string whose digest is signed, if the service signs. */
  datatype Decryption = Decryption(decrypted: seq<nat>, encryptionType: int, preimage: Option<seq<nat>>)

  /** What the signing key does when asked; without one nothing is signed. */
  datatype Signer = NoSigner | Signs | Fails

  /** Whatever the stored bytes, a decrypted value fits 256 bits. */
  lemma DecryptedFits(key: DirectKey, ty: EncryptionType, stored: Stored)
    requires key.messageModulus > 0 && DecryptCompressed(key, ty, stored).Ok?
    ensures DecryptCompressed(key, ty, stored).value < TWO256
  {
  }

  /** The signed bytes of a served request agree with its handle: the type that is
      signed is the handle's own type byte, the zone byte is zero, and the body is
      a plaintext the conditions of the service clear for that handle. */
  ghost predicate SignedAsCommitted(service: Service, a: Answers, chainId: u64, d: Decryption, preimage: seq<nat>)
    requires service.key.messageModulus > 0
  {
    && |preimage| == 76
    && var signed := ReadPreimage(preimage);
    && |signed.ctHash| == 32
    && signed.encryptionType == d.encryptionType == HandleType(signed.ctHash)
    && HandleZone(signed.ctHash) == 0
    && signed.chainId == chainId
    && signed.body == d.decrypted
    && ClearedFor(service, a, signed.ctHash, d)
  }

  ghost predicate ClearedFor(service: Service, a: Answers, handle: seq<nat>, d: Decryption)
    requires service.key.messageModulus > 0 && |handle| == 32
  {
    exists ty: EncryptionType ::
      ty.Wire() == d.encryptionType && Cleared(service.gates, service.key, handle, a, (ReadBigEndian(d.decrypted), ty))
  }

  /** `handle_decrypt`, up to the digest of what is signed. */
  method HandleDecrypt(service: Service, api: ApiVersion, text: seq<byte>, chainId: u64, a: Answers, signer: Signer)
    returns (r: Result<Decryption, Response>)
    requires service.Valid()
    modifies service`slots
    ensures service.Valid() && service.slots == old(service.slots)
    ensures ParseHandle(text).None? ==> r == Failure(Refuse(api, 400, BadRequest))
    ensures ParseHandle(text).Some? ==>
              var bytes := BigEndian(ParseHandle(text).value.u256, 32);
              var reply := LadderReply(api, service.gates, service.key, bytes, old(service.slots) > 0, a);
              if reply.Failure? then r == Failure(reply.error)
              else if signer == Fails then r == Failure(Refuse(api, 500, SigningFailed))
              else
                && r.Success? && r.value.encryptionType == reply.value.1.Wire()
                && ReadBigEndian(r.value.decrypted) == reply.value.0 && ClearedFor(service, a, bytes, r.value)
                && (r.value.preimage.Some? <==> signer == Signs)
                && (signer == Signs ==>
                      && SignedAsCommitted(service, a, chainId, r.value, r.value.preimage.value)
                      && ReadPreimage(r.value.preimage.value).ctHash == bytes)
  {
    hide BigEndian, ReadBigEndian, ParseHandle, ParseCtHash, Cleared, LadderReply, FirstRefusal, HandleType, HandleZone;
    var parsed := ParseHandle(text);
    if parsed.None? {
      return Failure(Refuse(api, 400, BadRequest));
    }
    var handle := parsed.value;
    var bytes := BigEndian(handle.u256, 32);
    var fetched := service.FetchDecrypt(api, bytes, a);
    if fetched.Failure? {
      return Failure(fetched.error);
    }
    var (value, ty) := fetched.value;
    ClearedMetadata(service.gates, service.key, bytes, a, value, ty);
    ReadBack(value, 32);
    var d := Decryption(BigEndian(value, 32), ty.Wire(), None);
    assert ClearedFor(service, a, bytes, d);
    match signer
    case NoSigner =>
      return Success(d);
    case Fails =>
      return Failure(Refuse(api, 500, SigningFailed));
    case Signs =>
      CanonicalIdempotent(text);
      var signed := SignDecrypt(value, ty.Wire(), chainId, handle.hex);
      r := Success(d.(preimage := Some(signed.value)));
      assert ClearedFor(service, a, bytes, r.value);
      assert SignedAsCommitted(service, a, chainId, r.value, signed.value);
  }

  lemma ClearedMetadata(gates: Gates, key: DirectKey, handle: seq<nat>, a: Answers, value: nat, ty: EncryptionType)
    requires key.messageModulus > 0 && |handle| == 32 && Cleared(gates, key, handle, a, (value, ty))
    ensures value < TWO256 && ty.Wire() == HandleType(handle) && HandleZone(handle) == 0
  {
    DecryptedFits(key, ty, a.source.ct.payload);
  }
}
