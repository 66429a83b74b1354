/** Whole requests interleaved over one commitment cache, one registry and the two
    semaphores (src/http.rs): the two gates of a request run side by side, the join
    waits for both, the ciphertext is fetched and checked after it and decrypted
    behind the CPU gate. Steps of other requests, of the clock and of the registry
    fall anywhere in between, and any request may be cancelled. */
module ServiceRuns {
  import opened Options
  import opened Lwe
  import opened Radix
  import opened Commitment
  import CommitmentRuns
  import Permits
  import opened Pipeline

  type World = CommitmentRuns.World
  type Request = CommitmentRuns.Request

  /** How far the handler of a request has come. */
  datatype Stage =
    | Gating                                          // join! pending
    | Fetching(expected: Option<Fetched>)             // past the gates
    | Checking(expected: Option<Fetched>, ct: Ct)     // bytes in hand, of the stored form
    | Decrypting(ct: Ct)                              // at the CPU gate, or behind it
    | Replied(reply: Result<Plaintext, Response>)
    | Dropped                                         // cancelled
  {
    predicate Active() { !Replied? && !Dropped? }
  }

  /** The handler's side of a request; the commitment gate's side is in the world. */
  datatype Ticket = Ticket(
    api: ApiVersion,
    presented: bool,
    handle: seq<nat>,
    admitted: bool,
    acp: Option<AcpAnswer>,
    source: Option<SourceAnswer>,
    stage: Stage)

  datatype System = System(world: World, gate: Permits.State, tickets: map<nat, Ticket>)

  /** A service with the commitment gate configured; the ACP gate may be. */
  datatype Settings = Settings(acp: bool, key: DirectKey, cache: CommitmentRuns.Config, decrypt: nat, admit: nat)
  {
    function Gates(): (r: Pipeline.Gates) { Pipeline.Gates(acp, Some(cache.warnOnly)) }

    function CpuPermits(): (n: nat) { Permits.AtLeastOne(decrypt) }

    function Slots(): (n: nat) { Permits.AtLeastOne(admit) }

    ghost predicate Valid() { key.messageModulus > 0 && cache.cap > 0 }
  }

  datatype Step =
    | Tick(dt: nat)
    | Post(handle: nat, commit: Hash)
    | Wipe
    | Admit(id: nat, api: ApiVersion, presented: bool, k: Key, bytes: Hash)   // `bytes` is what the server will serve
    | HearAcl(id: nat, answer: AcpAnswer)
    | Lookup(id: nat)
    | Reply(id: nat, failure: Option<bool>)
    | Reconcile(id: nat)
    | Join(id: nat)
    | Fetch(id: nat, source: SourceAnswer)
    | Check(id: nat)
    | Vet(id: nat)                       // integrity verdict and metadata, then the CPU gate
    | Spawn(id: nat)
    | End(id: nat, panicked: bool)
    | Finish(id: nat)
    | Cancel(id: nat)

  predicate OfRequest(step: Step)
  {
    !step.Tick? && !step.Post? && !step.Wipe?
  }

  // ----- The handler's steps ---------------------------------------------------------------

  /** What the join answers once both gates are ready. */
  function Joined(settings: Settings, t: Ticket, phase: CommitmentRuns.Phase): (r: Stage)
  {
    var acl := if settings.acp && t.acp.Some? then EnforceAcp(t.api, t.presented, t.acp.value) else None;
    if acl.Some? then Replied(Failure(acl.value))
    else
      match phase
      case Gated(fetched) => Fetching(Some(fetched))
      case Done(verdict) =>
        (match VerdictResponse(t.api, verdict)
         case Some(response) => Replied(Failure(response))
         case None => Fetching(None))
      case _ => Gating
  }

  function Received(t: Ticket, expected: Option<Fetched>, source: SourceAnswer): (r: Stage)
  {
    if !source.Served? then Replied(Failure(SourceRung(t.api, source).value))
    else
      match FormRung(t.api, source.ct)
      case Some(response) => Replied(Failure(response))
      case None => Checking(expected, source.ct)
  }

  function Vetted(t: Ticket, ct: Ct, integrity: Option<Response>): (r: Stage)
    requires |t.handle| == 32
  {
    if integrity.Some? then Replied(Failure(integrity.value))
    else if MetadataRung(t.api, ct, t.handle).Some? then Replied(Failure(MetadataRung(t.api, ct, t.handle).value))
    else Decrypting(ct)
  }

  predicate Panics(settings: Settings, ct: Ct)
    requires settings.key.messageModulus > 0
  {
    Decrypted(settings.key, ct).Panic?
  }

  /** The end of the blocking work: its value, its rejection, or a join error. */
  function Finished(settings: Settings, t: Ticket, ct: Ct, panicked: bool): (r: Stage)
    requires settings.key.messageModulus > 0
  {
    if panicked then Replied(Failure(Refuse(t.api, 500, InternalError)))
    else
      match (Decrypted(settings.key, ct), FromWire(ct.encryptionType))
      case (Ok(v), Ok(ty)) => Replied(Success((v, ty)))
      case _ => Replied(Failure(Refuse(t.api, 502, CtSourceError)))
  }

  /** The step of one handler; `caller` is where its future stands at the gates. */
  function StepTicket(settings: Settings, t: Ticket, r: Request, caller: Option<Permits.Stage>, step: Step): (out: Ticket)
    requires settings.key.messageModulus > 0 && |t.handle| == 32
    ensures out.handle == t.handle && out.api == t.api && out.admitted == t.admitted
  {
    match step
    case HearAcl(_, answer) => if settings.acp && t.stage.Gating? && t.acp.None? then t.(acp := Some(answer)) else t
    case Join(_) =>
      if t.stage.Gating? && (settings.acp ==> t.acp.Some?) && (r.phase.Gated? || r.phase.Done?)
      then t.(stage := Joined(settings, t, r.phase)) else t
    case Fetch(_, source) =>
      if t.stage.Fetching? && (source.Served? ==> source.ct.hash == r.actual)
      then t.(source := Some(source), stage := Received(t, t.stage.expected, source)) else t
    case Vet(_) =>
      if t.stage.Checking? && t.stage.expected.None? then t.(stage := Vetted(t, t.stage.ct, None))
      else if t.stage.Checking? && r.phase.Done?
      then t.(stage := Vetted(t, t.stage.ct, VerdictResponse(t.api, r.phase.verdict))) else t
    case Finish(_) =>
      if t.stage.Decrypting? && caller.Some? && caller.value.Finished?
      then t.(stage := Finished(settings, t, t.stage.ct, caller.value.panicked)) else t
    case Cancel(_) => if t.stage.Active() then t.(stage := Dropped) else t
    case _ => t
  }

  // ----- The steps underneath ------------------------------------------------------------------

  /** The step of the commitment gate a step is, if it is one: a request that has
      been answered or cancelled makes none. */
  function GateAction(s: System, step: Step): (a: Option<CommitmentRuns.Action>)
  {
    match step
    case Tick(dt) => Some(CommitmentRuns.Tick(dt))
    case Post(handle, commit) => Some(CommitmentRuns.Post(handle, commit))
    case Wipe => Some(CommitmentRuns.Wipe)
    case Admit(id, _, _, k, bytes) => Some(CommitmentRuns.Begin(id, k, bytes))
    case Lookup(id) => if AtGate(s, id) then Some(CommitmentRuns.Lookup(id)) else None
    case Reply(id, failure) => if AtGate(s, id) then Some(CommitmentRuns.Reply(id, failure)) else None
    case Reconcile(id) => if AtGate(s, id) then Some(CommitmentRuns.Reconcile(id)) else None
    case Check(id) => if AtGate(s, id) && s.tickets[id].stage.Checking? then Some(CommitmentRuns.Check(id)) else None
    case _ => None
  }

  /** The request is in fetch_commitment, or in the integrity check. */
  predicate AtGate(s: System, id: nat)
  {
    id in s.tickets && (s.tickets[id].stage.Gating? || (s.tickets[id].stage.Checking? && s.tickets[id].stage.expected.Some?))
  }

  /** What moving between two stages does at the semaphores: every way out frees
      the slot, the CPU gate is entered once everything is vetted. */
  function StageSteps(id: nat, before: Stage, after: Stage): (a: seq<Permits.Action>)
  {
    if !before.Active() then []
    else if after.Replied? then [Permits.Exit(id)]
    else if after.Dropped? then [Permits.Cancel(id), Permits.Exit(id)]
    else if after.Decrypting? && !before.Decrypting? then [Permits.Enter(id)]
    else []
  }

  function Caller(gate: Permits.State, id: nat): (caller: Option<Permits.Stage>)
  {
    if id in gate.callers then Some(gate.callers[id]) else None
  }

  function PermitSteps(settings: Settings, s: System, step: Step): (a: seq<Permits.Action>)
    requires settings.key.messageModulus > 0 && (forall id :: id in s.tickets ==> |s.tickets[id].handle| == 32)
    requires s.tickets.Keys == s.world.requests.Keys
  {
    match step
    case Tick(_) | Post(_, _) | Wipe => []
    case Admit(id, _, _, _, _) => if id in s.tickets then [] else [Permits.Arrive(id)]
    case Spawn(id) => [Permits.Spawn(id)]
    case End(id, panicked) =>
      if id in s.tickets && s.tickets[id].stage.Decrypting? && panicked != Panics(settings, s.tickets[id].stage.ct)
      then [] else [Permits.End(id, panicked)]
    case _ =>
      if step.id !in s.tickets then []
      else
        var t := s.tickets[step.id];
        StageSteps(step.id, t.stage,
                   StepTicket(settings, t, s.world.requests[step.id], Caller(s.gate, step.id), step).stage)
  }

  // ----- The service ---------------------------------------------------------------------------

  ghost predicate Matched(s: System)
  {
    && s.tickets.Keys == s.world.requests.Keys
    && forall id :: id in s.tickets ==> |s.tickets[id].handle| == 32
  }

  /** A request is admitted if the arrival took a slot, and shed otherwise. */
  function Arrived(step: Step, gate: Permits.State): (t: Ticket)
    requires step.Admit?
    ensures |t.handle| == 32
  {
    Ticket(step.api, step.presented, BigEndian(step.k.handle, 32), step.id in gate.callers, None, None,
           if step.id in gate.callers then Gating else Replied(Failure(Retryable(step.api, Overloaded))))
  }

  function NextWorld(settings: Settings, s: System, step: Step): (w: World)
    ensures w.requests.Keys == s.world.requests.Keys + if step.Admit? then {step.id} else {}
  {
    match GateAction(s, step)
    case Some(a) => CommitmentRuns.Next(settings.cache, s.world, a)
    case None => s.world
  }

  ghost function NextTickets(settings: Settings, s: System, step: Step, gate: Permits.State): (tickets: map<nat, Ticket>)
    requires settings.Valid() && Matched(s)
    ensures tickets.Keys == s.tickets.Keys + if step.Admit? then {step.id} else {}
    ensures forall id :: id in tickets ==> |tickets[id].handle| == 32
  {
    if !OfRequest(step) then s.tickets
    else if step.id !in s.tickets then
      if step.Admit? then s.tickets[step.id := Arrived(step, gate)] else s.tickets
    else
      s.tickets[step.id :=
        StepTicket(settings, s.tickets[step.id], s.world.requests[step.id], Caller(s.gate, step.id), step)]
  }

  /** One step of the service; a step that is not possible changes nothing. */
  ghost function Next(settings: Settings, s: System, step: Step): (next: System)
    requires settings.Valid() && Matched(s)
    ensures Matched(next)
  {
    var gate := Permits.Run(s.gate, PermitSteps(settings, s, step));
    System(NextWorld(settings, s, step), gate, NextTickets(settings, s, step, gate))
  }

  ghost function Run(settings: Settings, s: System, steps: seq<Step>): (end: System)
    requires settings.Valid() && Matched(s)
    ensures Matched(end)
    decreases |steps|
  {
    if steps == [] then s else Run(settings, Next(settings, s, steps[0]), steps[1..])
  }

  function Start(settings: Settings): (s: System)
  {
    System(CommitmentRuns.Initial, Permits.Initial(settings.decrypt, settings.admit), map[])
  }

  // ----- What a request has heard ------------------------------------------------------------

  /** The first thing it read: from the cache or from the registry. */
  function FirstRead(log: seq<CommitmentRuns.Event>): (r: Result<Fetched, CommitmentError>)
  {
    if log == [] then Failure(Transport)
    else
      match log[0]
      case FromCache(hash, _) => Success(Fetched(hash, true))
      case FromRegistry(answer) => FetchResult(answer)
  }

  function SecondRead(log: seq<CommitmentRuns.Event>): (r: Result<Hash, CommitmentError>)
  {
    if |log| > 1 && log[1].FromRegistry? then RefreshResult(log[1].answer) else Failure(Transport)
  }

  /** The answers a request has heard so far; what it has not heard is filled in
      by values that no reply depends on. */
  function Heard(t: Ticket, r: Request): (a: Answers)
  {
    Answers(t.presented,
            if t.acp.Some? then t.acp.value else Denied,
            FirstRead(r.log),
            if t.source.Some? then t.source.value else Absent,
            SecondRead(r.log))
  }

  // ----- The invariant of a request ----------------------------------------------------------------

  /** The gate of fetch_commitment has ended, and as its first read says. */
  ghost predicate GateEnded(r: Request, warnOnly: bool)
  {
    |r.log| == 1 && r.phase == CommitmentRuns.Gate(FirstRead(r.log), warnOnly)
  }

  ghost predicate InGate(r: Request, warnOnly: bool)
  {
    match r.phase
    case Start | Reading => r.log == []
    case Answered(answer) => r.log == [CommitmentRuns.FromRegistry(answer)]
    case _ => GateEnded(r, warnOnly)
  }

  /** The integrity check of the expected hash is on its way, or has ended. */
  ghost predicate InCheck(r: Request, expected: Fetched, warnOnly: bool)
  {
    && FirstRead(r.log) == Success(expected)
    && match r.phase
       case Gated(fetched) => fetched == expected && |r.log| == 1
       case Rereading(cached) => cached == expected.hash && |r.log| == 1 && NeedsReread(expected, r.actual)
       case Reanswered(cached, answer) =>
         && cached == expected.hash && NeedsReread(expected, r.actual)
         && |r.log| == 2 && r.log[1] == CommitmentRuns.FromRegistry(answer)
       case Done(verdict) => |r.log| >= 1 && verdict == EnforceIntegrity(expected, r.actual, SecondRead(r.log), warnOnly)
       case _ => false
  }

  ghost predicate GatesPassed(settings: Settings, t: Ticket, r: Request)
  {
    && AcpRung(t.api, settings.Gates(), Heard(t, r)).None?
    && CommitmentRung(t.api, settings.Gates(), Heard(t, r)).None?
  }

  /** What the work behind the CPU gate will answer. */
  function DecryptReply(settings: Settings, api: ApiVersion, ct: Ct): (r: Result<Plaintext, Response>)
    requires settings.key.messageModulus > 0
  {
    Finished(settings, Ticket(api, false, [], true, None, None, Gating), ct, Panics(settings, ct)).reply
  }

  /** The bytes served are those whose hash the gate checked. */
  ghost predicate Vouched(settings: Settings, t: Ticket, r: Request, ct: Ct)
  {
    && t.source == Some(Served(ct)) && ct.hash == r.actual
    && (!settings.cache.warnOnly ==> r.phase == CommitmentRuns.Done(Pass))
  }

  ghost predicate Fits(settings: Settings, t: Ticket, r: Request)
    requires settings.key.messageModulus > 0
  {
    && |t.handle| == 32 && HandleOf(t.handle, r.key)
    && (t.stage.Active() ==> t.admitted)
    && match t.stage
       case Gating => t.source == None && InGate(r, settings.cache.warnOnly)
       case Fetching(expected) =>
         && t.source == None && GateEnded(r, settings.cache.warnOnly)
         && GatesPassed(settings, t, r) && expected == Expected(settings.Gates(), Heard(t, r))
       case Checking(expected, ct) =>
         && t.source == Some(Served(ct)) && ct.hash == r.actual && FormRung(t.api, ct).None?
         && GatesPassed(settings, t, r) && expected == Expected(settings.Gates(), Heard(t, r))
         && (if expected.Some? then InCheck(r, expected.value, settings.cache.warnOnly) else GateEnded(r, settings.cache.warnOnly))
       case Decrypting(ct) =>
         && Vouched(settings, t, r, ct) && FromWire(ct.encryptionType).Ok?
         && LadderReply(t.api, settings.Gates(), settings.key, t.handle, true, Heard(t, r)) == DecryptReply(settings, t.api, ct)
       case Replied(reply) =>
         && reply == LadderReply(t.api, settings.Gates(), settings.key, t.handle, t.admitted, Heard(t, r))
         && (reply.Success? ==> t.source.Some? && t.source.value.Served? && Vouched(settings, t, r, t.source.value.ct))
       case Dropped => true
  }

  /** The handler's 32 bytes are those of the handle the gate asks about. */
  ghost predicate HandleOf(bytes: seq<nat>, k: Key)
  {
    bytes == BigEndian(k.handle, 32)
  }

  /** A request holds a slot exactly while its handler runs, and stands at the CPU
      gate exactly while it decrypts. */
  ghost predicate CallerFits(settings: Settings, t: Ticket, caller: Option<Permits.Stage>)
    requires settings.key.messageModulus > 0
  {
    match t.stage
    case Gating | Fetching(_) | Checking(_, _) => caller == Some(Permits.Admitted)
    case Decrypting(ct) =>
      && caller.Some?
      && (caller.value.Waiting? || caller.value.Granted? || caller.value.Running?
          || caller.value == Permits.Finished(Panics(settings, ct)))
    case Replied(_) | Dropped => caller.None?
  }

  ghost predicate RequestsFit(settings: Settings, s: System)
    requires settings.Valid() && Matched(s)
  {
    forall id :: id in s.tickets ==> Fits(settings, s.tickets[id], s.world.requests[id])
  }

  ghost predicate CallersFit(settings: Settings, s: System)
    requires settings.Valid()
  {
    forall id :: id in s.tickets ==> CallerFits(settings, s.tickets[id], Caller(s.gate, id))
  }

  ghost predicate GateFits(settings: Settings, s: System)
  {
    Permits.Inv(s.gate, settings.CpuPermits(), settings.Slots()) && s.gate.seen == s.tickets.Keys
  }

  ghost predicate AllFit(settings: Settings, s: System)
  {
    settings.Valid() && Matched(s) && RequestsFit(settings, s) && GateFits(settings, s) && CallersFit(settings, s)
  }

  // ----- Steps of the commitment gate keep it ---------------------------------------------------

  /** A request's own steps of the gate, other than starting the integrity check. */
  lemma GateStep(settings: Settings, w: World, t: Ticket, r: Request, a: CommitmentRuns.Action)
    requires settings.Valid() && Fits(settings, t, r) && (a.Lookup? || a.Reply? || a.Reconcile?)
    requires t.stage.Gating? || (t.stage.Checking? && t.stage.expected.Some?)
    ensures Fits(settings, t, CommitmentRuns.StepRequest(settings.cache, w, r, a).1)
  {
    hide FirstRefusal, LadderReply, FormRung, AcpRung, Looked, Reconciled, HandleOf;
    var after := CommitmentRuns.StepRequest(settings.cache, w, r, a).1;
    if t.stage.Checking? {
      InCheckStep(settings, w, r, t.stage.expected.value, a);
      SameHeard(settings, t, r, after);
    }
  }

  lemma InCheckStep(settings: Settings, w: World, r: Request, expected: Fetched, a: CommitmentRuns.Action)
    requires InCheck(r, expected, settings.cache.warnOnly)
    requires a.Lookup? || a.Reply? || a.Reconcile? || a.Check?
    ensures var after := CommitmentRuns.StepRequest(settings.cache, w, r, a).1;
            && InCheck(after, expected, settings.cache.warnOnly)
            && after.actual == r.actual && FirstRead(after.log) == FirstRead(r.log)
  {
    hide Looked, Reconciled;
  }

  /** The gates look only at what was read first. */
  lemma SameHeard(settings: Settings, t: Ticket, r: Request, after: Request)
    requires FirstRead(after.log) == FirstRead(r.log)
    ensures GatesPassed(settings, t, after) <==> GatesPassed(settings, t, r)
    ensures Expected(settings.Gates(), Heard(t, after)) == Expected(settings.Gates(), Heard(t, r))
  {
  }

  // ----- Steps of the handler keep it -------------------------------------------------------------

  lemma LadderGates(settings: Settings, api: ApiVersion, handle: seq<nat>, a: Answers)
    requires settings.Valid() && |handle| == 32
    ensures var gates := settings.Gates();
            var reply := LadderReply(api, gates, settings.key, handle, true, a);
            && (AcpRung(api, gates, a).Some? ==> reply == Failure(AcpRung(api, gates, a).value))
            && (AcpRung(api, gates, a).None? && CommitmentRung(api, gates, a).Some? ==>
                  reply == Failure(CommitmentRung(api, gates, a).value))
            && (AcpRung(api, gates, a).None? && CommitmentRung(api, gates, a).None? && !a.source.Served? ==>
                  reply == Failure(SourceRung(api, a.source).value))
  {
    UnfoldGates(api, settings.Gates(), true, a);
    hide AcpRung, CommitmentRung, First, CtRungs;
  }

  lemma LadderCt(settings: Settings, api: ApiVersion, handle: seq<nat>, a: Answers, ct: Ct)
    requires settings.Valid() && |handle| == 32 && a.source == Served(ct)
    requires AcpRung(api, settings.Gates(), a).None? && CommitmentRung(api, settings.Gates(), a).None?
    ensures var gates := settings.Gates();
            LadderReply(api, settings.Gates(), settings.key, handle, true, a)
            == if FormRung(api, ct).Some? then Failure(FormRung(api, ct).value)
               else if IntegrityRung(api, gates, a, ct).Some? then Failure(IntegrityRung(api, gates, a, ct).value)
               else if MetadataRung(api, ct, handle).Some? then Failure(MetadataRung(api, ct, handle).value)
               else if DecryptRung(api, settings.key, ct).Some? then Failure(DecryptRung(api, settings.key, ct).value)
               else Success((Decrypted(settings.key, ct).value, FromWire(ct.encryptionType).value))
  {
    UnfoldGates(api, settings.Gates(), true, a);
    UnfoldCt(api, settings.Gates(), settings.key, handle, a, ct);
    hide AcpRung, CommitmentRung, First, CtRungs, GateRungs, FormRung, IntegrityRung;
  }

  lemma JoinStep(settings: Settings, t: Ticket, r: Request)
    requires settings.Valid() && Fits(settings, t, r) && t.stage.Gating?
    requires (settings.acp ==> t.acp.Some?) && (r.phase.Gated? || r.phase.Done?)
    ensures Fits(settings, t.(stage := Joined(settings, t, r.phase)), r)
  {
    hide LadderReply, FirstRefusal, EnforceAcp, HandleOf;
    LadderGates(settings, t.api, t.handle, Heard(t, r));
    assert Heard(t.(stage := Joined(settings, t, r.phase)), r) == Heard(t, r);
  }

  lemma FetchStep(settings: Settings, t: Ticket, r: Request, source: SourceAnswer)
    requires settings.Valid() && Fits(settings, t, r) && t.stage.Fetching?
    requires source.Served? ==> source.ct.hash == r.actual
    ensures Fits(settings, t.(source := Some(source), stage := Received(t, t.stage.expected, source)), r)
  {
    hide LadderReply, FirstRefusal, FormRung, HandleOf;
    var after := t.(source := Some(source), stage := Received(t, t.stage.expected, source));
    var a := Heard(after, r);
    assert AcpRung(t.api, settings.Gates(), a) == AcpRung(t.api, settings.Gates(), Heard(t, r));
    assert CommitmentRung(t.api, settings.Gates(), a) == CommitmentRung(t.api, settings.Gates(), Heard(t, r));
    LadderGates(settings, t.api, t.handle, a);
    if source.Served? {
      LadderCt(settings, t.api, t.handle, a, source.ct);
      EndedCheck(settings, t, r);
    }
  }

  /** A gate that ended with an expectation is about to check it. */
  lemma EndedCheck(settings: Settings, t: Ticket, r: Request)
    requires GateEnded(r, settings.cache.warnOnly)
    ensures var expected := Expected(settings.Gates(), Heard(t, r));
            expected.Some? ==> InCheck(r, expected.value, settings.cache.warnOnly)
  {
  }

  lemma VetStep(settings: Settings, t: Ticket, r: Request)
    requires settings.Valid() && Fits(settings, t, r) && t.stage.Checking?
    requires t.stage.expected.Some? ==> r.phase.Done?
    ensures var integrity := if t.stage.expected.None? then None else VerdictResponse(t.api, r.phase.verdict);
            Fits(settings, t.(stage := Vetted(t, t.stage.ct, integrity)), r)
  {
    hide LadderReply, FirstRefusal, FormRung, DecryptRung, Decrypted, AcpRung, HandleOf, DecryptReply;
    var expected, ct := t.stage.expected, t.stage.ct;
    var integrity := if expected.None? then None else VerdictResponse(t.api, r.phase.verdict);
    var after := t.(stage := Vetted(t, ct, integrity));
    assert Heard(after, r) == Heard(t, r);
    LadderCt(settings, t.api, t.handle, Heard(t, r), ct);
    assert integrity == IntegrityRung(t.api, settings.Gates(), Heard(t, r), ct) by { hide EnforceIntegrity; }
    if MetadataRung(t.api, ct, t.handle).None? {
      DecryptReplyIs(settings, t.api, ct);
    }
    if expected.Some? {
      EnforcedPass(expected.value, r.actual, SecondRead(r.log), settings.cache.warnOnly);
    }
  }

  lemma DecryptReplyIs(settings: Settings, api: ApiVersion, ct: Ct)
    requires settings.Valid() && FromWire(ct.encryptionType).Ok?
    ensures DecryptReply(settings, api, ct)
         == if DecryptRung(api, settings.key, ct).Some? then Failure(DecryptRung(api, settings.key, ct).value)
            else Success((Decrypted(settings.key, ct).value, FromWire(ct.encryptionType).value))
  {
    hide Decrypted, FromWire;
  }

  /** An enforcing check that lets the bytes through has passed them. */
  lemma EnforcedPass(expected: Fetched, actual: Hash, reread: Result<Hash, CommitmentError>, warnOnly: bool)
    ensures !warnOnly ==> EnforceIntegrity(expected, actual, reread, warnOnly) != Unchecked
  {
  }

  lemma FinishStep(settings: Settings, t: Ticket, r: Request, panicked: bool)
    requires settings.Valid() && Fits(settings, t, r) && t.stage.Decrypting?
    requires panicked == Panics(settings, t.stage.ct)
    ensures Fits(settings, t.(stage := Finished(settings, t, t.stage.ct, panicked)), r)
  {
    hide LadderReply, FirstRefusal, Decrypted, HandleOf;
    assert Heard(t.(stage := Finished(settings, t, t.stage.ct, panicked)), r) == Heard(t, r);
    assert Finished(settings, t, t.stage.ct, panicked) == Replied(DecryptReply(settings, t.api, t.stage.ct));
  }

  lemma TicketStep(settings: Settings, t: Ticket, r: Request, caller: Option<Permits.Stage>, step: Step)
    requires settings.Valid() && Fits(settings, t, r) && CallerFits(settings, t, caller)
    ensures Fits(settings, StepTicket(settings, t, r, caller, step), r)
  {
    hide LadderReply, Joined, Received, Finished, Vetted, Decrypted, HandleOf;
    match step
    case Join(_) =>
      if t.stage.Gating? && (settings.acp ==> t.acp.Some?) && (r.phase.Gated? || r.phase.Done?) {
        JoinStep(settings, t, r);
      }
    case Fetch(_, source) =>
      if t.stage.Fetching? && (source.Served? ==> source.ct.hash == r.actual) {
        FetchStep(settings, t, r, source);
      }
    case Vet(_) =>
      if t.stage.Checking? && (t.stage.expected.None? || r.phase.Done?) {
        VetStep(settings, t, r);
      }
    case Finish(_) =>
      if t.stage.Decrypting? && caller.value.Finished? {
        FinishStep(settings, t, r, caller.value.panicked);
      }
    case _ =>
  }

  // ----- And so does every step of the service -------------------------------------------------------

  lemma UnfoldNext(settings: Settings, s: System, step: Step)
    requires settings.Valid() && Matched(s)
    ensures var next := Next(settings, s, step);
            && next.world == NextWorld(settings, s, step)
            && next.gate == Permits.Run(s.gate, PermitSteps(settings, s, step))
            && (OfRequest(step) && step.id in s.tickets ==>
                  next.tickets[step.id]
                  == StepTicket(settings, s.tickets[step.id], s.world.requests[step.id], Caller(s.gate, step.id), step))
            && (OfRequest(step) && step.Admit? && step.id !in s.tickets ==>
                  next.tickets == s.tickets[step.id := Arrived(step, next.gate)])
            && (!OfRequest(step) || (!step.Admit? && step.id !in s.tickets) ==> next.tickets == s.tickets)
            && (OfRequest(step) && step.id in s.tickets ==> next.tickets.Keys == s.tickets.Keys)
  {
    hide StepTicket, PermitSteps, NextWorld, Permits.Run, Arrived, Matched;
  }

  /** A step of one request is a step of its gate or of its handler, never both. */
  lemma OwnFits(settings: Settings, s: System, step: Step)
    requires settings.Valid() && Matched(s) && OfRequest(step) && step.id in s.tickets
    requires Fits(settings, s.tickets[step.id], s.world.requests[step.id])
    requires CallerFits(settings, s.tickets[step.id], Caller(s.gate, step.id))
    ensures Fits(settings, Next(settings, s, step).tickets[step.id], Next(settings, s, step).world.requests[step.id])
  {
    var t, r, w, caller := s.tickets[step.id], s.world.requests[step.id], s.world, Caller(s.gate, step.id);
    UnfoldNext(settings, s, step);
    OwnRequest(settings, s, step);
    hide Fits, CallerFits, NextWorld, PermitSteps, Caller, Next;
    match step
    case Lookup(id) => if AtGate(s, id) { GateStep(settings, w, t, r, CommitmentRuns.Lookup(id)); }
    case Reply(id, failure) => if AtGate(s, id) { GateStep(settings, w, t, r, CommitmentRuns.Reply(id, failure)); }
    case Reconcile(id) => if AtGate(s, id) { GateStep(settings, w, t, r, CommitmentRuns.Reconcile(id)); }
    case Check(id) => if GateAction(s, step).Some? { CheckStep(settings, w, t, r, id); }
    case _ => TicketStep(settings, t, r, caller, step);
  }

  /** The request's record after a step of its own. */
  lemma OwnRequest(settings: Settings, s: System, step: Step)
    requires Matched(s) && OfRequest(step) && step.id in s.tickets
    ensures step.id in NextWorld(settings, s, step).requests
    ensures NextWorld(settings, s, step).requests[step.id]
         == if GateAction(s, step).Some? && !step.Admit?
            then CommitmentRuns.StepRequest(settings.cache, s.world, s.world.requests[step.id], GateAction(s, step).value).1
            else s.world.requests[step.id]
  {
    hide CommitmentRuns.StepRequest;
  }

  lemma CheckStep(settings: Settings, w: World, t: Ticket, r: Request, id: nat)
    requires settings.Valid() && Fits(settings, t, r)
    requires t.stage.Checking? && t.stage.expected.Some?
    ensures Fits(settings, t, CommitmentRuns.StepRequest(settings.cache, w, r, CommitmentRuns.Check(id)).1)
  {
    hide FirstRefusal, LadderReply, FormRung, AcpRung, HandleOf;
    var after := CommitmentRuns.StepRequest(settings.cache, w, r, CommitmentRuns.Check(id)).1;
    InCheckStep(settings, w, r, t.stage.expected.value, CommitmentRuns.Check(id));
    SameHeard(settings, t, r, after);
  }

  /** A request that arrives: in the gate with a slot, or answered without one. */
  lemma ArrivedFits(settings: Settings, s: System, step: Step)
    requires settings.Valid() && Matched(s) && GateFits(settings, s) && step.Admit? && step.id !in s.tickets
    ensures var next := Next(settings, s, step);
            && Fits(settings, next.tickets[step.id], next.world.requests[step.id])
            && CallerFits(settings, next.tickets[step.id], Caller(next.gate, step.id))
  {
    var next := Next(settings, s, step);
    ArrivedRequest(settings, s, step);
    ArrivedGate(settings, s, step);
    UnfoldNext(settings, s, step);
    assert next.tickets[step.id] == Arrived(step, next.gate);
    hide Next, NextTickets, Permits.Inv, NextWorld, PermitSteps, Permits.Run, Fits, CallerFits, Arrived;
    NewFits(settings, step, next.gate, next.world.requests[step.id]);
    NewCaller(settings, step, next.gate);
  }

  lemma NewCaller(settings: Settings, step: Step, gate: Permits.State)
    requires settings.Valid() && step.Admit?
    requires step.id in gate.callers ==> gate.callers[step.id] == Permits.Admitted
    ensures CallerFits(settings, Arrived(step, gate), Caller(gate, step.id))
  {
  }

  lemma ArrivedRequest(settings: Settings, s: System, step: Step)
    requires settings.Valid() && Matched(s) && step.Admit? && step.id !in s.tickets
    ensures Next(settings, s, step).world.requests[step.id]
         == CommitmentRuns.Request(step.k, step.bytes, CommitmentRuns.Start, [], 0)
  {
    hide PermitSteps, NextTickets, Permits.Run;
  }

  lemma ArrivedGate(settings: Settings, s: System, step: Step)
    requires settings.Valid() && Matched(s) && GateFits(settings, s) && step.Admit? && step.id !in s.tickets
    ensures var gate := Next(settings, s, step).gate;
            step.id in gate.callers ==> gate.callers[step.id] == Permits.Admitted
  {
    PlacedGate(settings, s.gate);
    assert Next(settings, s, step).gate == Permits.Run(s.gate, [Permits.Arrive(step.id)]) by { hide Permits.Inv, Permits.Run; }
    hide Permits.Inv, Next, Permits.Next;
    Permits.RunOne(s.gate, Permits.Arrive(step.id));
    Permits.OwnStays(s.gate, Permits.Arrive(step.id));
  }

  lemma PlacedGate(settings: Settings, gate: Permits.State)
    requires Permits.Inv(gate, settings.CpuPermits(), settings.Slots())
    ensures Permits.Placed(gate) && gate.callers.Keys <= gate.seen
  {
  }

  lemma NewFits(settings: Settings, step: Step, gate: Permits.State, r: Request)
    requires settings.Valid() && step.Admit? && r == CommitmentRuns.Request(step.k, step.bytes, CommitmentRuns.Start, [], 0)
    ensures Fits(settings, Arrived(step, gate), r)
  {
    var t := Arrived(step, gate);
    hide LadderReply;
    if !t.admitted {
      ShedReply(settings, t.api, t.handle, Heard(t, r));
    }
  }

  lemma ShedReply(settings: Settings, api: ApiVersion, handle: seq<nat>, a: Answers)
    requires settings.Valid() && |handle| == 32
    ensures LadderReply(api, settings.Gates(), settings.key, handle, false, a) == Failure(Retryable(api, Overloaded))
  {
    UnfoldGates(api, settings.Gates(), false, a);
    hide First, GateRungs, CtRungs, AcpRung, CommitmentRung, SourceRung;
  }

  lemma OthersStay(settings: Settings, s: System, step: Step, id: nat)
    requires settings.Valid() && Matched(s) && id in s.tickets && (OfRequest(step) ==> step.id != id)
    ensures var next := Next(settings, s, step);
            id in next.tickets && next.tickets[id] == s.tickets[id] && next.world.requests[id] == s.world.requests[id]
  {
    hide StepTicket, CommitmentRuns.StepRequest, PermitSteps, Permits.Run;
  }

  lemma StepsOfOne(settings: Settings, s: System, step: Step)
    requires settings.Valid() && Matched(s)
    ensures !OfRequest(step) ==> PermitSteps(settings, s, step) == []
    ensures OfRequest(step) ==>
              forall i :: 0 <= i < |PermitSteps(settings, s, step)| ==> PermitSteps(settings, s, step)[i].id == step.id
  {
    hide StepTicket, Panics;
  }

  /** The semaphores after a step, and the standing of the other requests there. */
  lemma OthersCaller(settings: Settings, s: System, step: Step, id: nat)
    requires settings.Valid() && Matched(s) && GateFits(settings, s) && (OfRequest(step) ==> step.id != id)
    requires id in s.tickets && CallerFits(settings, s.tickets[id], Caller(s.gate, id))
    ensures CallerFits(settings, s.tickets[id], Caller(Next(settings, s, step).gate, id))
  {
    UnfoldNext(settings, s, step);
    StepsOfOne(settings, s, step);
    hide Next, NextTickets, NextWorld, PermitSteps, CallerFits, Permits.Inv, Permits.Run, Matched;
    OthersAfter(settings, s.gate, PermitSteps(settings, s, step), step, s.tickets[id], id);
  }

  lemma OthersAfter(settings: Settings, gate: Permits.State, steps: seq<Permits.Action>, step: Step, t: Ticket, id: nat)
    requires settings.Valid() && Permits.Inv(gate, settings.CpuPermits(), settings.Slots())
    requires if OfRequest(step) then step.id != id && forall i :: 0 <= i < |steps| ==> steps[i].id == step.id else steps == []
    requires CallerFits(settings, t, Caller(gate, id))
    ensures CallerFits(settings, t, Caller(Permits.Run(gate, steps), id))
  {
    hide Permits.Inv, Permits.Run, Panics;
    if OfRequest(step) {
      Permits.OthersStayRun(gate, steps, step.id, id, settings.CpuPermits(), settings.Slots());
    } else {
      NoPermitSteps(gate);
    }
  }

  lemma NoPermitSteps(gate: Permits.State)
    ensures Permits.Run(gate, []) == gate
  {
  }

  /** The only moves between stages. */
  ghost predicate Moves(before: Stage, after: Stage, caller: Option<Permits.Stage>)
  {
    || after == before
    || (before.Active() && after.Dropped?)
    || (before.Gating? && (after.Fetching? || after.Replied?))
    || (before.Fetching? && (after.Checking? || after.Replied?))
    || (before.Checking? && (after == Decrypting(before.ct) || after.Replied?))
    || (before.Decrypting? && after.Replied? && caller.Some? && caller.value.Finished?)
  }

  lemma StageMoves(settings: Settings, t: Ticket, r: Request, caller: Option<Permits.Stage>, step: Step)
    requires settings.Valid() && |t.handle| == 32
    ensures Moves(t.stage, StepTicket(settings, t, r, caller, step).stage, caller)
    ensures step.Spawn? || step.End? || step.Admit? ==> StepTicket(settings, t, r, caller, step) == t
  {
    hide EnforceAcp, VerdictResponse, SourceRung, FormRung, MetadataRung, Decrypted;
  }

  /** What a move of the handler does to its request's standing. */
  lemma MovedCaller(settings: Settings, gate: Permits.State, id: nat, t: Ticket, t': Ticket)
    requires settings.Valid() && Permits.Inv(gate, settings.CpuPermits(), settings.Slots())
    requires CallerFits(settings, t, Caller(gate, id)) && Moves(t.stage, t'.stage, Caller(gate, id))
    ensures var after := Permits.Run(gate, StageSteps(id, t.stage, t'.stage));
            CallerFits(settings, t', Caller(after, id)) && after.seen == gate.seen
  {
    var steps := StageSteps(id, t.stage, t'.stage);
    NoPermitSteps(gate);
    if |steps| == 1 {
      assert steps == [steps[0]];
      OneStep(gate, steps[0], settings);
    } else if |steps| == 2 {
      Permits.CancelledLeaves(gate, id, settings.CpuPermits(), settings.Slots());
    }
    hide Permits.Inv, Permits.Next, Permits.Run, Panics;
  }

  function Spawned(caller: Permits.Stage): (after: Permits.Stage)
  {
    if caller.Granted? then Permits.Running else caller
  }

  function Told(caller: Permits.Stage, panicked: bool): (after: Permits.Stage)
  {
    if caller.Running? then Permits.Finished(panicked) else caller
  }

  lemma OneStep(gate: Permits.State, a: Permits.Action, settings: Settings)
    requires Permits.Inv(gate, settings.CpuPermits(), settings.Slots()) && a.id in gate.callers && !a.Arrive?
    ensures var after := Permits.Run(gate, [a]);
            && after.seen == gate.seen
            && (a.Exit? && Permits.MayExit(gate.callers[a.id]) ==> a.id !in after.callers)
            && (a.Enter? && gate.callers[a.id] == Permits.Admitted ==>
                  a.id in after.callers && (after.callers[a.id].Waiting? || after.callers[a.id].Granted?))
            && (a.Spawn? || a.End? ==> a.id in after.callers)
            && (a.Spawn? ==> after.callers[a.id] == Spawned(gate.callers[a.id]))
            && (a.End? ==> after.callers[a.id] == Told(gate.callers[a.id], a.panicked))
  {
    Permits.RunOne(gate, a);
    Permits.OwnStays(gate, a);
    Permits.SeenStays(gate, a);
    hide Permits.Run, Permits.Next;
  }

  /** Work that starts or ends moves only a request that decrypts. */
  lemma WorkedCaller(settings: Settings, gate: Permits.State, id: nat, t: Ticket, a: Permits.Action)
    requires settings.Valid() && Permits.Inv(gate, settings.CpuPermits(), settings.Slots())
    requires CallerFits(settings, t, Caller(gate, id)) && a.id == id && (a.Spawn? || a.End?)
    requires a.End? && t.stage.Decrypting? ==> a.panicked == Panics(settings, t.stage.ct)
    ensures CallerFits(settings, t, Caller(Permits.Run(gate, [a]), id)) && Permits.Run(gate, [a]).seen == gate.seen
  {
    if id in gate.callers {
      OneStep(gate, a, settings);
    } else {
      Permits.RunOne(gate, a);
      Permits.OwnStays(gate, a);
      Permits.SeenStays(gate, a);
    }
    hide Permits.Run, Permits.Next, Permits.Inv, Panics;
  }

  /** The request's own standing at the semaphores after its step. */
  lemma OwnCaller(settings: Settings, s: System, step: Step)
    requires settings.Valid() && Matched(s) && GateFits(settings, s) && OfRequest(step) && step.id in s.tickets
    requires CallerFits(settings, s.tickets[step.id], Caller(s.gate, step.id))
    ensures var next := Next(settings, s, step);
            CallerFits(settings, next.tickets[step.id], Caller(next.gate, step.id)) && next.gate.seen == s.gate.seen
  {
    var id := step.id;
    var t, r, caller, steps := s.tickets[id], s.world.requests[id], Caller(s.gate, id), PermitSteps(settings, s, step);
    var moved := StepTicket(settings, t, r, caller, step);
    UnfoldNext(settings, s, step);
    StageMoves(settings, t, r, caller, step);
    NoPermitSteps(s.gate);
    hide Next, StepTicket, CallerFits, Permits.Inv, Permits.Run, StageSteps;
    match step
    case Spawn(_) => WorkedCaller(settings, s.gate, id, t, Permits.Spawn(id));
    case End(_, panicked) => if steps != [] { WorkedCaller(settings, s.gate, id, t, Permits.End(id, panicked)); }
    case Admit(_, _, _, _, _) =>
    case _ => MovedCaller(settings, s.gate, id, t, moved);
  }

  /** Work of a request nobody knows changes nobody's having been seen. */
  lemma SeenKept(settings: Settings, s: System, step: Step)
    requires settings.Valid() && Matched(s) && GateFits(settings, s) && CallersFit(settings, s)
    ensures Next(settings, s, step).gate.seen == Next(settings, s, step).tickets.Keys
  {
    UnfoldNext(settings, s, step);
    if OfRequest(step) && step.id in s.tickets {
      hide Next, NextTickets, PermitSteps, StepTicket, NextWorld, Permits.Run, Permits.Inv, CallerFits;
      OwnCaller(settings, s, step);
    } else {
      StrangerSteps(settings, s, step);
      hide Next, NextTickets, PermitSteps, StepTicket, NextWorld, Permits.Run, Permits.Inv, Permits.Next, Arrived;
      SeenAfter(s.gate, PermitSteps(settings, s, step));
    }
  }

  /** Only an arrival does something for a request that was not there. */
  lemma StrangerSteps(settings: Settings, s: System, step: Step)
    requires settings.Valid() && Matched(s) && (OfRequest(step) ==> step.id !in s.tickets)
    ensures var steps := PermitSteps(settings, s, step);
            && |steps| <= 1
            && (step.Admit? ==> steps == [Permits.Arrive(step.id)])
            && (!step.Admit? && |steps| == 1 ==> !steps[0].Arrive?)
  {
  }

  lemma SeenAfter(gate: Permits.State, steps: seq<Permits.Action>)
    requires |steps| <= 1
    ensures Permits.Run(gate, steps).seen == gate.seen + if |steps| == 1 && steps[0].Arrive? then {steps[0].id} else {}
  {
    NoPermitSteps(gate);
    if |steps| == 1 {
      assert steps == [steps[0]];
      Permits.RunOne(gate, steps[0]);
      Permits.SeenStays(gate, steps[0]);
    }
  }

  lemma GateKept(settings: Settings, s: System, step: Step)
    requires settings.Valid() && Matched(s) && GateFits(settings, s) && CallersFit(settings, s)
    ensures GateFits(settings, Next(settings, s, step))
  {
    UnfoldNext(settings, s, step);
    SeenKept(settings, s, step);
    hide Next, PermitSteps, Permits.Inv;
    Permits.RunInv(s.gate, PermitSteps(settings, s, step), settings.CpuPermits(), settings.Slots());
  }

  lemma NextFits(settings: Settings, s: System, step: Step)
    requires AllFit(settings, s)
    ensures AllFit(settings, Next(settings, s, step))
  {
    hide Next, NextTickets, Fits, CallerFits, GateFits, PermitSteps, NextWorld, Caller;
    var next := Next(settings, s, step);
    GateKept(settings, s, step);
    forall id | id in next.tickets
      ensures Fits(settings, next.tickets[id], next.world.requests[id])
      ensures CallerFits(settings, next.tickets[id], Caller(next.gate, id))
    {
      OneFits(settings, s, step, id);
    }
  }

  lemma OneFits(settings: Settings, s: System, step: Step, id: nat)
    requires AllFit(settings, s) && id in Next(settings, s, step).tickets
    ensures var next := Next(settings, s, step);
            Fits(settings, next.tickets[id], next.world.requests[id]) && CallerFits(settings, next.tickets[id], Caller(next.gate, id))
  {
    UnfoldNext(settings, s, step);
    assert id in s.tickets ==> Fits(settings, s.tickets[id], s.world.requests[id]) && CallerFits(settings, s.tickets[id], Caller(s.gate, id));
    hide Next, Fits, CallerFits, Permits.Inv, RequestsFit, CallersFit, PermitSteps, StepTicket, NextWorld, Permits.Run;
    if OfRequest(step) && step.id == id {
      if id in s.tickets {
        OwnFits(settings, s, step);
        OwnCaller(settings, s, step);
      } else {
        ArrivedFits(settings, s, step);
      }
    } else {
      OthersStay(settings, s, step, id);
      OthersCaller(settings, s, step, id);
    }
  }

  lemma {:induction false} RunFits(settings: Settings, s: System, steps: seq<Step>)
    requires AllFit(settings, s)
    ensures AllFit(settings, Run(settings, s, steps))
    decreases |steps|
  {
    if steps != [] {
      NextFits(settings, s, steps[0]);
      RunFits(settings, Next(settings, s, steps[0]), steps[1..]);
    }
  }

  lemma StartFits(settings: Settings)
    requires settings.Valid()
    ensures AllFit(settings, Start(settings))
  {
    Permits.InitialInv(settings.decrypt, settings.admit);
  }
}
