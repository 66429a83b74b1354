/** Runs of the service that serve (src/http.rs): whatever passes the pure checks
    and decrypts is served by some run from the start. */
module ServiceWitness {
  import opened Arith
  import opened Options
  import opened Lwe
  import opened Radix
  import opened RadixRoundTrip
  import opened Commitment
  import CommitmentRuns
  import Permits
  import opened Handles
  import opened Pipeline
  import opened ServiceRuns
  import ServiceProgress

  /** Bytes that may be served as v for the handle, once the registry holds their hash. */
  ghost predicate Deserves(settings: Settings, k: Key, ct: Ct, v: nat, ty: EncryptionType)
    requires settings.key.messageModulus > 0
  {
    && ct.hash != 0 && FormRung(V1, ct).None?
    && MetadataRung(V1, ct, BigEndian(k.handle, 32)).None?
    && FromWire(ct.encryptionType) == Ok(ty) && Decrypted(settings.key, ct) == Ok(v)
  }

  /** Request 0 in a system whose registry holds h for its handle. */
  ghost predicate Stands(settings: Settings, s: System, t: Ticket, r: Request, h: Hash)
  {
    && AllFit(settings, s) && 0 in s.tickets && s.tickets[0] == t && s.world.requests[0] == r
    && CommitmentRuns.OnChain(s.world.registry, r.key) == h
  }

  /** One more step after a run from the start. */
  lemma Extend(settings: Settings, steps: seq<Step>, step: Step)
    requires settings.Valid()
    ensures Run(settings, Start(settings), steps + [step]) == Next(settings, Run(settings, Start(settings), steps), step)
  {
    assert Matched(Start(settings));
    hide *;
    ServiceProgress.RunAppend(settings, Start(settings), steps, [step]);
    ServiceProgress.RunOne(settings, Run(settings, Start(settings), steps), step);
  }

  lemma HandlerMove(settings: Settings, s: System, t: Ticket, r: Request, h: Hash, step: Step)
    requires Stands(settings, s, t, r, h) && OfRequest(step) && step.id == 0 && GateAction(s, step).None?
    ensures Stands(settings, Next(settings, s, step), StepTicket(settings, t, r, Caller(s.gate, 0), step), r, h)
  {
    NextFits(settings, s, step);
    UnfoldNext(settings, s, step);
    hide Next, StepTicket, PermitSteps, Permits.Run, RequestsFit, CallersFit, GateFits;
  }

  lemma GateMove(settings: Settings, s: System, t: Ticket, r: Request, h: Hash, step: Step, r': Request)
    requires Stands(settings, s, t, r, h) && OfRequest(step) && step.id == 0 && GateAction(s, step).Some? && !step.Admit?
    requires r' == CommitmentRuns.StepRequest(settings.cache, s.world, r, GateAction(s, step).value).1
    ensures Stands(settings, Next(settings, s, step), t, r', h)
  {
    NextFits(settings, s, step);
    UnfoldNext(settings, s, step);
    ServiceProgress.GateLeavesTicket(settings, s, step);
    OwnRequest(settings, s, step);
    KeepsRegistry(settings, s, step);
    KeepsKey(settings, s.world, r, GateAction(s, step).value);
    hide Next, NextWorld, StepTicket, PermitSteps, Permits.Run, RequestsFit, CallersFit, GateFits, CommitmentRuns.StepRequest;
  }

  lemma KeepsRegistry(settings: Settings, s: System, step: Step)
    requires settings.Valid() && Matched(s) && OfRequest(step) && !step.Admit?
    ensures NextWorld(settings, s, step).registry == s.world.registry
  {
    hide CommitmentRuns.StepRequest;
  }

  lemma KeepsKey(settings: Settings, w: World, r: Request, a: CommitmentRuns.Action)
    ensures CommitmentRuns.StepRequest(settings.cache, w, r, a).1.key == r.key
    ensures CommitmentRuns.StepRequest(settings.cache, w, r, a).1.actual == r.actual
  {
  }

  // ----- From the start to a served plaintext ------------------------------------------------

  /** The registry gets the hash, and request 0 arrives. */
  lemma Arrives(settings: Settings, api: ApiVersion, presented: bool, k: Key, h: Hash) returns (steps: seq<Step>, s: System)
    requires settings.Valid() && h != 0
    ensures s == Run(settings, Start(settings), steps)
    ensures Stands(settings, s, Ticket(api, presented, BigEndian(k.handle, 32), true, None, None, Gating),
                   CommitmentRuns.Request(k, h, CommitmentRuns.Start, [], 0), h)
    ensures s.world.cache == []
  {
    var posted := Next(settings, Start(settings), Post(k.handle, h));
    StartFits(settings);
    NextFits(settings, Start(settings), Post(k.handle, h));
    UnfoldNext(settings, Start(settings), Post(k.handle, h));
    NoPermitSteps(Start(settings).gate);
    assert posted.tickets == map[] && posted.gate == Permits.Initial(settings.decrypt, settings.admit);
    assert posted.world == CommitmentRuns.Initial.(registry := map[k.handle := h]);
    var admit := Admit(0, api, presented, k, h);
    hide AllFit;
    s := Next(settings, posted, admit);
    NextFits(settings, posted, admit);
    FirstArrival(settings, posted, admit);
    steps := [Post(k.handle, h)] + [admit];
    ServiceProgress.RunOne(settings, Start(settings), Post(k.handle, h));
    Extend(settings, [Post(k.handle, h)], admit);
    hide Next, Run;
    InSystem(settings, s, k);
  }

  lemma InSystem(settings: Settings, s: System, k: Key)
    requires AllFit(settings, s)
    ensures Matched(s) && settings.Valid()
  {
  }

  lemma FirstArrival(settings: Settings, s: System, admit: Step)
    requires settings.Valid() && Matched(s) && admit.Admit? && admit.id == 0
    requires s.tickets == map[] && s.gate == Permits.Initial(settings.decrypt, settings.admit)
    ensures var next := Next(settings, s, admit);
            && 0 in next.tickets
            && next.tickets[0] == Ticket(admit.api, admit.presented, BigEndian(admit.k.handle, 32), true, None, None, Gating)
            && next.world.requests[0] == CommitmentRuns.Request(admit.k, admit.bytes, CommitmentRuns.Start, [], 0)
            && next.world.registry == s.world.registry && next.world.cache == s.world.cache
  {
    UnfoldNext(settings, s, admit);
    Permits.RunOne(s.gate, Permits.Arrive(0));
    assert PermitSteps(settings, s, admit) == [Permits.Arrive(0)];
  }

  /** One step of the commitment gate, added to the run. */
  lemma Moved(settings: Settings, steps: seq<Step>, s: System, t: Ticket, r: Request, h: Hash, step: Step, r': Request)
      returns (next: System)
    requires settings.Valid() && s == Run(settings, Start(settings), steps) && Stands(settings, s, t, r, h)
    requires OfRequest(step) && step.id == 0 && GateAction(s, step).Some? && !step.Admit?
    requires r' == CommitmentRuns.StepRequest(settings.cache, s.world, r, GateAction(s, step).value).1
    ensures next == Run(settings, Start(settings), steps + [step]) && Stands(settings, next, t, r', h)
  {
    hide Run, CommitmentRuns.StepRequest, GateAction;
    next := Next(settings, s, step);
    GateMove(settings, s, t, r, h, step, r');
    Extend(settings, steps, step);
  }

  /** One step of the handler, added to the run. */
  lemma Handled(settings: Settings, steps: seq<Step>, s: System, t: Ticket, r: Request, h: Hash, step: Step, t': Ticket)
      returns (next: System)
    requires settings.Valid() && s == Run(settings, Start(settings), steps) && Stands(settings, s, t, r, h)
    requires OfRequest(step) && step.id == 0 && GateAction(s, step).None? && |t.handle| == 32
    requires t' == StepTicket(settings, t, r, Caller(s.gate, 0), step)
    ensures next == Run(settings, Start(settings), steps + [step]) && Stands(settings, next, t', r, h)
  {
    hide Run, StepTicket, GateAction;
    next := Next(settings, s, step);
    HandlerMove(settings, s, t, r, h, step);
    Extend(settings, steps, step);
  }

  // What each step does, on its own.

  lemma LookupMisses(c: CommitmentRuns.Config, w: World, r: Request)
    requires r.phase.Start? && w.cache == []
    ensures CommitmentRuns.StepRequest(c, w, r, CommitmentRuns.Lookup(0)).1 == r.(phase := CommitmentRuns.Reading)
  {
  }

  lemma ReplyReads(c: CommitmentRuns.Config, w: World, r: Request)
    requires r.phase.Reading?
    ensures var after := CommitmentRuns.StepRequest(c, w, r, CommitmentRuns.Reply(0, None)).1;
            && after.phase == CommitmentRuns.Answered(Hashed(CommitmentRuns.OnChain(w.registry, r.key)))
            && after.key == r.key && after.actual == r.actual
  {
  }

  lemma ReconcileGates(c: CommitmentRuns.Config, w: World, r: Request, h: Hash)
    requires r.phase == CommitmentRuns.Answered(Hashed(h)) && h != 0
    ensures var after := CommitmentRuns.StepRequest(c, w, r, CommitmentRuns.Reconcile(0)).1;
            after.phase == CommitmentRuns.Gated(Fetched(h, false)) && after.key == r.key && after.actual == r.actual
  {
  }

  lemma CheckPasses(c: CommitmentRuns.Config, w: World, r: Request, h: Hash)
    requires r.phase == CommitmentRuns.Gated(Fetched(h, false)) && r.actual == h
    ensures var after := CommitmentRuns.StepRequest(c, w, r, CommitmentRuns.Check(0)).1;
            after.phase == CommitmentRuns.Done(Pass) && after.key == r.key && after.actual == r.actual
  {
  }

  lemma GateOpen(settings: Settings, s: System, t: Ticket, r: Request, h: Hash)
    requires Stands(settings, s, t, r, h)
    ensures t.stage.Gating? ==>
              && GateAction(s, Lookup(0)) == Some(CommitmentRuns.Lookup(0))
              && GateAction(s, Reply(0, None)) == Some(CommitmentRuns.Reply(0, None))
              && GateAction(s, Reconcile(0)) == Some(CommitmentRuns.Reconcile(0))
    ensures t.stage.Checking? && t.stage.expected.Some? ==> GateAction(s, Check(0)) == Some(CommitmentRuns.Check(0))
    ensures CommitmentRuns.OnChain(s.world.registry, r.key) == h
  {
    hide AllFit, CommitmentRuns.OnChain;
  }

  lemma Allows(settings: Settings, t: Ticket, r: Request, caller: Option<Permits.Stage>)
    requires settings.Valid() && |t.handle| == 32 && t.stage.Gating? && t.acp.None?
    ensures var after := StepTicket(settings, t, r, caller, HearAcl(0, Allowed));
            after == t.(acp := if settings.acp then Some(Allowed) else None)
  {
  }

  lemma Joins(settings: Settings, t: Ticket, r: Request, caller: Option<Permits.Stage>, fetched: Fetched)
    requires settings.Valid() && |t.handle| == 32 && t.stage.Gating? && r.phase == CommitmentRuns.Gated(fetched)
    requires if settings.acp then t.acp == Some(Allowed) else t.acp == None
    ensures StepTicket(settings, t, r, caller, Join(0)) == t.(stage := Fetching(Some(fetched)))
  {
  }

  lemma Receives(settings: Settings, t: Ticket, r: Request, caller: Option<Permits.Stage>, ct: Ct)
    requires settings.Valid() && |t.handle| == 32 && t.stage.Fetching? && r.actual == ct.hash && FormRung(V1, ct).None?
    ensures StepTicket(settings, t, r, caller, Fetch(0, Served(ct)))
         == t.(source := Some(Served(ct)), stage := Checking(t.stage.expected, ct))
  {
    assert FormRung(t.api, ct).None?;
  }

  lemma Vets(settings: Settings, t: Ticket, r: Request, caller: Option<Permits.Stage>, ct: Ct)
    requires settings.Valid() && |t.handle| == 32 && t.stage.Checking? && t.stage.ct == ct
    requires r.phase == CommitmentRuns.Done(Pass) && MetadataRung(V1, ct, t.handle).None?
    ensures StepTicket(settings, t, r, caller, Vet(0)) == t.(stage := Decrypting(ct))
  {
    assert MetadataRung(t.api, ct, t.handle).None?;
  }

  lemma Misses(settings: Settings, steps: seq<Step>, s: System, t: Ticket, r: Request, h: Hash) returns (next: System)
    requires settings.Valid() && s == Run(settings, Start(settings), steps) && Stands(settings, s, t, r, h)
    requires t.stage.Gating? && r.phase.Start? && s.world.cache == []
    ensures next == Run(settings, Start(settings), steps + [Lookup(0)])
    ensures Stands(settings, next, t, r.(phase := CommitmentRuns.Reading), h)
  {
    assert OfRequest(Lookup(0));
    hide *;
    GateOpen(settings, s, t, r, h);
    LookupMisses(settings.cache, s.world, r);
    next := Moved(settings, steps, s, t, r, h, Lookup(0), r.(phase := CommitmentRuns.Reading));
  }

  /** The commitment gate misses the cache, reads the hash and stores it. */
  lemma PassesGate(settings: Settings, steps: seq<Step>, s: System, t: Ticket, r: Request, h: Hash)
      returns (steps': seq<Step>, s': System, r': Request)
    requires settings.Valid() && s == Run(settings, Start(settings), steps) && Stands(settings, s, t, r, h) && h != 0
    requires t.stage.Gating? && r.phase.Start? && s.world.cache == []
    ensures s' == Run(settings, Start(settings), steps') && Stands(settings, s', t, r', h)
    ensures r'.phase == CommitmentRuns.Gated(Fetched(h, false)) && r'.key == r.key && r'.actual == r.actual
  {
    assert OfRequest(Reply(0, None)) && OfRequest(Reconcile(0));
    hide *;
    var s1 := Misses(settings, steps, s, t, r, h);
    var r1 := r.(phase := CommitmentRuns.Reading);
    GateOpen(settings, s1, t, r1, h);
    ReplyReads(settings.cache, s1.world, r1);
    var r2 := CommitmentRuns.StepRequest(settings.cache, s1.world, r1, CommitmentRuns.Reply(0, None)).1;
    steps' := steps + [Lookup(0)];
    var s2 := Moved(settings, steps', s1, t, r1, h, Reply(0, None), r2);
    GateOpen(settings, s2, t, r2, h);
    ReconcileGates(settings.cache, s2.world, r2, h);
    r' := CommitmentRuns.StepRequest(settings.cache, s2.world, r2, CommitmentRuns.Reconcile(0)).1;
    steps' := steps' + [Reply(0, None)];
    s' := Moved(settings, steps', s2, t, r2, h, Reconcile(0), r');
    steps' := steps' + [Reconcile(0)];
  }

  /** The ACL allows it, the gates join, and the bytes are fetched. */
  lemma PassesJoin(settings: Settings, steps: seq<Step>, s: System, t: Ticket, r: Request, h: Hash, ct: Ct)
      returns (steps': seq<Step>, s': System, t': Ticket)
    requires settings.Valid() && s == Run(settings, Start(settings), steps) && Stands(settings, s, t, r, h)
    requires t.stage.Gating? && t.acp.None? && |t.handle| == 32
    requires r.phase == CommitmentRuns.Gated(Fetched(h, false)) && r.actual == ct.hash && FormRung(V1, ct).None?
    ensures s' == Run(settings, Start(settings), steps') && Stands(settings, s', t', r, h)
    ensures t'.stage == Checking(Some(Fetched(h, false)), ct) && t'.handle == t.handle && t'.api == t.api
  {
    HandlersOwn(s, ct);
    var heard, fetch := HearAcl(0, Allowed), Fetch(0, Served(ct));
    hide *;
    Allows(settings, t, r, Caller(s.gate, 0));
    var t1 := t.(acp := if settings.acp then Some(Allowed) else None);
    var s1 := Handled(settings, steps, s, t, r, h, heard, t1);
    HandlersOwn(s1, ct);
    Joins(settings, t1, r, Caller(s1.gate, 0), Fetched(h, false));
    var t2 := t1.(stage := Fetching(Some(Fetched(h, false))));
    steps' := steps + [heard];
    var s2 := Handled(settings, steps', s1, t1, r, h, Join(0), t2);
    HandlersOwn(s2, ct);
    Receives(settings, t2, r, Caller(s2.gate, 0), ct);
    t' := t2.(source := Some(Served(ct)), stage := Checking(t2.stage.expected, ct));
    steps' := steps' + [Join(0)];
    s' := Handled(settings, steps', s2, t2, r, h, fetch, t');
    steps' := steps' + [fetch];
  }

  /** These are steps of the handler alone. */
  lemma HandlersOwn(s: System, ct: Ct)
    ensures GateAction(s, HearAcl(0, Allowed)).None? && OfRequest(HearAcl(0, Allowed))
    ensures GateAction(s, Join(0)).None? && OfRequest(Join(0))
    ensures GateAction(s, Fetch(0, Served(ct))).None? && OfRequest(Fetch(0, Served(ct)))
    ensures GateAction(s, Vet(0)).None? && OfRequest(Vet(0)) && OfRequest(Check(0))
  {
  }

  /** The hash agrees, the metadata too: the request is at the CPU gate. */
  lemma PassesChecks(settings: Settings, steps: seq<Step>, s: System, t: Ticket, r: Request, h: Hash, ct: Ct)
      returns (steps': seq<Step>, s': System, t': Ticket, r': Request)
    requires settings.Valid() && s == Run(settings, Start(settings), steps) && Stands(settings, s, t, r, h)
    requires t.stage == Checking(Some(Fetched(h, false)), ct) && |t.handle| == 32
    requires r.phase == CommitmentRuns.Gated(Fetched(h, false)) && r.actual == ct.hash == h
    requires MetadataRung(V1, ct, t.handle).None?
    ensures s' == Run(settings, Start(settings), steps') && Stands(settings, s', t', r', h)
    ensures t'.stage == Decrypting(ct) && t'.api == t.api
  {
    HandlersOwn(s, ct);
    hide *;
    GateOpen(settings, s, t, r, h);
    CheckPasses(settings.cache, s.world, r, h);
    r' := CommitmentRuns.StepRequest(settings.cache, s.world, r, CommitmentRuns.Check(0)).1;
    var s1 := Moved(settings, steps, s, t, r, h, Check(0), r');
    HandlersOwn(s1, ct);
    Vets(settings, t, r', Caller(s1.gate, 0), ct);
    t' := t.(stage := Decrypting(ct));
    steps' := steps + [Check(0)];
    s' := Handled(settings, steps', s1, t, r', h, Vet(0), t');
    steps' := steps' + [Vet(0)];
  }

  /** Whatever deserves to be served is: some run from the start, on either API and
      with or without an ACP, ends with exactly its plaintext. */
  lemma DeservingIsServed(settings: Settings, api: ApiVersion, presented: bool, k: Key, ct: Ct, v: nat, ty: EncryptionType)
      returns (steps: seq<Step>)
    requires settings.Valid() && Deserves(settings, k, ct, v, ty)
    ensures var end := Run(settings, Start(settings), steps);
            0 in end.tickets && end.tickets[0].stage == Replied(Success((v, ty)))
  {
    var h := ct.hash;
    var steps0, s0 := Arrives(settings, api, presented, k, h);
    var t0 := Ticket(api, presented, BigEndian(k.handle, 32), true, None, None, Gating);
    var r0 := CommitmentRuns.Request(k, h, CommitmentRuns.Start, [], 0);
    var steps1, s1, r1 := PassesGate(settings, steps0, s0, t0, r0, h);
    var steps2, s2, t2 := PassesJoin(settings, steps1, s1, t0, r1, h, ct);
    var steps3, s3, t3, r3 := PassesChecks(settings, steps2, s2, t2, r1, h, ct);
    DecryptsTo(settings, api, ct, v, ty);
    assert AllFit(settings, s3) && 0 in s3.tickets && s3.tickets[0] == t3;
    hide *;
    StageActive(t3);
    var rest := ServiceProgress.ReachesReply(settings, s3, 0);
    AppendStart(settings, steps3, rest);
    steps := steps3 + rest;
  }

  lemma AppendStart(settings: Settings, a: seq<Step>, b: seq<Step>)
    requires settings.Valid()
    ensures Run(settings, Start(settings), a + b) == Run(settings, Run(settings, Start(settings), a), b)
  {
    assert Matched(Start(settings));
    hide *;
    ServiceProgress.RunAppend(settings, Start(settings), a, b);
  }

  lemma StageActive(t: Ticket)
    ensures t.stage.Decrypting? ==> t.stage.Active()
  {
  }

  lemma DecryptsTo(settings: Settings, api: ApiVersion, ct: Ct, v: nat, ty: EncryptionType)
    requires settings.Valid() && FromWire(ct.encryptionType) == Ok(ty) && Decrypted(settings.key, ct) == Ok(v)
    ensures DecryptReply(settings, api, ct) == Success((v, ty))
  {
    hide Decrypted, FromWire;
  }

  lemma FourByFour() returns (key: DirectKey)
    ensures key == DirectKey([], 4, 4) && UsableKey(key) && EncryptionParameters(key, [], 5, 0)
  {
    key := DirectKey([], 4, 4);
    assert Pow2(5) == 32;
  }

  lemma EncryptedBool(key: DirectKey, mask: seq<nat>, log: u64, b: bool) returns (payload: Stored)
    requires UsableKey(key) && EncryptionParameters(key, mask, log, 0)
    ensures key.messageModulus > 0
    ensures DecryptCompressed(key, TBool, payload) == Ok(if b then 1 else 0)
  {
    var m := if b then 1 else 0;
    assert key.messageModulus > 0;
    hide *;
    EncryptThenDecode(key, mask, log, m, 0);
    var block := EncryptBlock(key, mask, log, m, 0);
    BoolRoundTrip(key, block, b);
    payload := StoredBool(ModulusSwitched(block));
  }

  lemma BoolDeserves(settings: Settings, payload: Stored, v: nat) returns (ct: Ct)
    requires settings.Valid() && DecryptCompressed(settings.key, TBool, payload) == Ok(v)
    ensures Deserves(settings, Key(0, 0), ct, v, TBool)
  {
    ct := Ct(0, 0, false, true, 1, payload);
    hide BigEndian, DecryptCompressed;
    LastBytes(0, 32);
  }

  /** And something does: an encrypted boolean under a key of four message and four
      carry levels, for the handle of a boolean in zone 0. */
  lemma ServedExample(api: ApiVersion, b: bool) returns (settings: Settings, steps: seq<Step>)
    ensures settings.Valid() && UsableKey(settings.key) && settings.acp && !settings.cache.warnOnly
    ensures var end := Run(settings, Start(settings), steps);
            0 in end.tickets && end.tickets[0].stage == Replied(Success((if b then 1 else 0, TBool)))
  {
    var key := FourByFour();
    settings := Settings(true, key, CommitmentRuns.Config(1, 1, false), 1, 1);
    assert settings.Valid();
    hide *;
    var log: u64 :| log == 5;
    var payload := EncryptedBool(key, [], log, b);
    var ct := BoolDeserves(settings, payload, if b then 1 else 0);
    steps := DeservingIsServed(settings, api, true, Key(0, 0), ct, if b then 1 else 0, TBool);
  }
}
