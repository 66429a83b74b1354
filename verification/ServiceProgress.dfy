/** Requests come to an end (src/http.rs, src/cpu.rs): a bound on what can happen
    to a request, a next step for every one that is under way, and runs that serve
    whatever may be served. */
module ServiceProgress {
  import opened Arith
  import opened Options
  import opened Lwe
  import opened Radix
  import opened RadixRoundTrip
  import opened Commitment
  import CommitmentRuns
  import Permits
  import opened Handles
  import opened Pipeline
  import opened ServiceRuns

  // ----- How much can still happen to a request -----------------------------------------

  function PhaseRank(phase: CommitmentRuns.Phase): (n: nat)
  {
    match phase
    case Start => 6
    case Reading => 5
    case Answered(_) => 4
    case Gated(_) => 3
    case Rereading(_) => 2
    case Reanswered(_, _) => 1
    case Done(_) => 0
  }

  function CallerRank(caller: Option<Permits.Stage>): (n: nat)
  {
    match caller
    case Some(Waiting) => 3
    case Some(Granted) => 2
    case Some(Running) => 1
    case _ => 0
  }

  function Rank(t: Ticket, r: Request, caller: Option<Permits.Stage>): (n: nat)
  {
    match t.stage
    case Gating => 20 + PhaseRank(r.phase) + if t.acp.None? then 1 else 0
    case Fetching(_) => 15
    case Checking(_, _) => 5 + PhaseRank(r.phase)
    case Decrypting(_) => 1 + CallerRank(caller)
    case _ => 0
  }

  ghost predicate Unchanged(s: System, next: System, id: nat)
    requires Matched(s) && Matched(next) && id in s.tickets && id in next.tickets
  {
    && next.tickets[id] == s.tickets[id] && next.world.requests[id] == s.world.requests[id]
    && Caller(next.gate, id) == Caller(s.gate, id)
  }

  function RankOf(s: System, id: nat): (n: nat)
    requires id in s.tickets && id in s.world.requests
  {
    Rank(s.tickets[id], s.world.requests[id], Caller(s.gate, id))
  }

  /** The commitment gate only moves a request forward. */
  lemma PhaseDrops(settings: Settings, w: World, r: Request, a: CommitmentRuns.Action)
    ensures var after := CommitmentRuns.StepRequest(settings.cache, w, r, a).1;
            after == r || PhaseRank(after.phase) < PhaseRank(r.phase)
  {
    hide Looked, Reconciled, LookupHit;
  }

  /** And so do the handler's own moves. */
  lemma TicketDrops(settings: Settings, t: Ticket, r: Request, caller: Option<Permits.Stage>,
                    caller': Option<Permits.Stage>, step: Step)
    requires settings.Valid() && |t.handle| == 32
    ensures var after := StepTicket(settings, t, r, caller, step);
            after == t || Rank(after, r, caller') < Rank(t, r, caller)
  {
    hide EnforceAcp, VerdictResponse, SourceRung, FormRung, MetadataRung, Decrypted;
  }

  lemma GateLeavesTicket(settings: Settings, s: System, step: Step)
    requires settings.Valid() && Matched(s) && OfRequest(step) && step.id in s.tickets
    requires GateAction(s, step).Some? && !step.Admit?
    ensures StepTicket(settings, s.tickets[step.id], s.world.requests[step.id], Caller(s.gate, step.id), step)
         == s.tickets[step.id]
    ensures s.tickets[step.id].stage.Gating? || s.tickets[step.id].stage.Checking?
    ensures !step.Spawn? && !step.End? && PermitSteps(settings, s, step) == []
  {
  }

  /** A request that decrypts moves on at the CPU gate, or stays where it is. */
  lemma CallerDrops(settings: Settings, s: System, step: Step, id: nat)
    requires AllFit(settings, s) && id in s.tickets && s.tickets[id].stage.Decrypting?
    requires id in Next(settings, s, step).tickets && Next(settings, s, step).tickets[id] == s.tickets[id]
    ensures var after := Caller(Next(settings, s, step).gate, id);
            after == Caller(s.gate, id) || CallerRank(after) < CallerRank(Caller(s.gate, id))
  {
    UnfoldNext(settings, s, step);
    StepsOfOne(settings, s, step);
    assert CallerFits(settings, s.tickets[id], Caller(s.gate, id)) && Permits.Inv(s.gate, settings.CpuPermits(), settings.Slots());
    if OfRequest(step) && step.id == id {
      OwnWork(settings, s, step);
    }
    DecryptingCalls(settings, s.tickets[id], Caller(s.gate, id));
    var steps := PermitSteps(settings, s, step);
    hide *;
    StandingAfter(settings, s.gate, steps, step, id);
  }

  lemma DecryptingCalls(settings: Settings, t: Ticket, caller: Option<Permits.Stage>)
    requires settings.Valid() && CallerFits(settings, t, caller) && t.stage.Decrypting?
    ensures caller.Some?
  {
  }

  lemma StandingAfter(settings: Settings, gate: Permits.State, steps: seq<Permits.Action>, step: Step, id: nat)
    requires Permits.Inv(gate, settings.CpuPermits(), settings.Slots()) && Caller(gate, id).Some?
    requires if OfRequest(step) then forall i :: 0 <= i < |steps| ==> steps[i].id == step.id else steps == []
    requires OfRequest(step) && step.id == id ==>
               steps == [] || (steps == [steps[0]] && steps[0].id == id && (steps[0].Spawn? || steps[0].End?))
    ensures var after := Caller(Permits.Run(gate, steps), id);
            after == Caller(gate, id) || CallerRank(after) < CallerRank(Caller(gate, id))
  {
    hide Permits.Inv, Permits.Run;
    if steps == [] {
      NoPermitSteps(gate);
    } else if step.id == id {
      OneStep(gate, steps[0], settings);
    } else {
      Permits.OthersStayRun(gate, steps, step.id, id, settings.CpuPermits(), settings.Slots());
    }
  }

  lemma OwnWork(settings: Settings, s: System, step: Step)
    requires settings.Valid() && Matched(s) && OfRequest(step) && step.id in s.tickets
    requires s.tickets[step.id].stage.Decrypting? && Next(settings, s, step).tickets[step.id] == s.tickets[step.id]
    ensures var steps := PermitSteps(settings, s, step);
            steps == [] || (steps == [steps[0]] && steps[0].id == step.id && (steps[0].Spawn? || steps[0].End?))
  {
    UnfoldNext(settings, s, step);
    hide Next, NextTickets, NextWorld, Panics, Permits.Run;
  }

  /** A standing that goes with the stage stays with it. */
  lemma CallerOfStage(settings: Settings, t: Ticket, caller: Option<Permits.Stage>, caller': Option<Permits.Stage>)
    requires settings.Valid() && CallerFits(settings, t, caller) && CallerFits(settings, t, caller')
    ensures t.stage.Decrypting? || caller == caller'
  {
  }

  /** Whatever happens to a request brings it closer to its end: by its own steps,
      by those of others, and by the work and the cancellations around it. */
  lemma ChangeDrops(settings: Settings, s: System, step: Step, id: nat)
    requires AllFit(settings, s) && id in s.tickets
    ensures id in Next(settings, s, step).tickets
    ensures Unchanged(s, Next(settings, s, step), id) || RankOf(Next(settings, s, step), id) < RankOf(s, id)
  {
    var next := Next(settings, s, step);
    var t, r, caller := s.tickets[id], s.world.requests[id], Caller(s.gate, id);
    assert id in next.tickets;
    OneFits(settings, s, step, id);
    assert CallerFits(settings, t, caller) && |t.handle| == 32;
    hide Next, NextTickets, NextWorld, PermitSteps, Fits, CallerFits, RequestsFit, CallersFit, StepTicket, GateFits,
         CommitmentRuns.StepRequest;
    if next.tickets[id] == t {
      CallerOfStage(settings, t, caller, Caller(next.gate, id));
      if t.stage.Decrypting? {
        CallerDrops(settings, s, step, id);
      }
    }
    if OfRequest(step) && step.id == id {
      OwnChange(settings, s, step);
    } else {
      OthersStay(settings, s, step, id);
    }
  }

  /** A step of the request itself changes its record or its ticket, not both. */
  lemma OwnChange(settings: Settings, s: System, step: Step)
    requires settings.Valid() && Matched(s) && OfRequest(step) && step.id in s.tickets
    ensures var next, id := Next(settings, s, step), step.id;
            var t, r, t', r' := s.tickets[id], s.world.requests[id], next.tickets[id], next.world.requests[id];
            || (r' == r && (t' == t || Rank(t', r, Caller(next.gate, id)) < Rank(t, r, Caller(s.gate, id))))
            || (t' == t && (t.stage.Gating? || t.stage.Checking?) && PhaseRank(r'.phase) < PhaseRank(r.phase))
  {
    var next, id := Next(settings, s, step), step.id;
    var t, r, caller := s.tickets[id], s.world.requests[id], Caller(s.gate, id);
    UnfoldNext(settings, s, step);
    OwnRequest(settings, s, step);
    if GateAction(s, step).Some? && !step.Admit? {
      GateLeavesTicket(settings, s, step);
      hide Next, NextTickets, NextWorld, PermitSteps, StepTicket, CommitmentRuns.StepRequest;
      PhaseDrops(settings, s.world, r, GateAction(s, step).value);
    } else {
      hide Next, NextTickets, NextWorld, PermitSteps, StepTicket;
      TicketDrops(settings, t, r, caller, Caller(next.gate, id), step);
    }
  }

  /** How often a run changes something about a request. */
  ghost function Changes(settings: Settings, s: System, steps: seq<Step>, id: nat): (n: nat)
    requires AllFit(settings, s) && id in s.tickets
    decreases |steps|
  {
    if steps == [] then 0
    else
      var next := Next(settings, s, steps[0]);
      ChangeDrops(settings, s, steps[0], id);
      NextFits(settings, s, steps[0]);
      (if Unchanged(s, next, id) then 0 else 1) + Changes(settings, next, steps[1..], id)
  }

  /** No run changes a request more often than its rank, which is at most 27: it
      is answered or cancelled, or it has stopped, after finitely many steps. */
  lemma {:induction false} ChangesBounded(settings: Settings, s: System, steps: seq<Step>, id: nat)
    requires AllFit(settings, s) && id in s.tickets
    ensures Changes(settings, s, steps, id) <= RankOf(s, id) <= 27
    decreases |steps|
  {
    if steps != [] {
      ChangeDrops(settings, s, steps[0], id);
      NextFits(settings, s, steps[0]);
      hide Next, AllFit, Rank;
      ChangesBounded(settings, Next(settings, s, steps[0]), steps[1..], id);
      RankBound(s.tickets[id], s.world.requests[id], Caller(s.gate, id));
    } else {
      RankBound(s.tickets[id], s.world.requests[id], Caller(s.gate, id));
    }
  }

  lemma RankBound(t: Ticket, r: Request, caller: Option<Permits.Stage>)
    ensures Rank(t, r, caller) <= 27
  {
  }

  // ----- There is always a next step -----------------------------------------------------------

  predicate WaitsForCpu(s: System, id: nat)
  {
    id in s.gate.callers && s.gate.callers[id].Waiting?
  }

  /** The next step of a request that is under way and does not wait for a permit. */
  function NextStep(settings: Settings, s: System, id: nat): (step: Step)
    requires settings.key.messageModulus > 0
    requires id in s.tickets && id in s.world.requests
    ensures OfRequest(step) && step.id == id && !step.Cancel? && !step.Admit?
  {
    var t, r := s.tickets[id], s.world.requests[id];
    match t.stage
    case Gating =>
      if settings.acp && t.acp.None? then HearAcl(id, Allowed)
      else
        (match r.phase
         case Start => Lookup(id)
         case Reading => Reply(id, None)
         case Answered(_) => Reconcile(id)
         case _ => Join(id))
    case Fetching(_) => Fetch(id, Absent)
    case Checking(expected, _) =>
      if expected.None? then Vet(id)
      else
        (match r.phase
         case Gated(_) => Check(id)
         case Rereading(_) => Reply(id, None)
         case Reanswered(_, _) => Reconcile(id)
         case _ => Vet(id))
    case Decrypting(ct) =>
      (match Caller(s.gate, id)
       case Some(Granted) => Spawn(id)
       case Some(Running) => End(id, Panics(settings, ct))
       case _ => Finish(id))
    case _ => Finish(id)
  }

  /** That step is possible: it changes the request. */
  lemma NextStepMoves(settings: Settings, s: System, id: nat)
    requires AllFit(settings, s) && id in s.tickets && s.tickets[id].stage.Active() && !WaitsForCpu(s, id)
    ensures var step := NextStep(settings, s, id);
            id in Next(settings, s, step).tickets && !Unchanged(s, Next(settings, s, step), id)
  {
    var step := NextStep(settings, s, id);
    var t, r, caller := s.tickets[id], s.world.requests[id], Caller(s.gate, id);
    assert Fits(settings, t, r) && CallerFits(settings, t, caller) && Permits.Inv(s.gate, settings.CpuPermits(), settings.Slots());
    UnfoldNext(settings, s, step);
    OwnRequest(settings, s, step);
    var next, steps := Next(settings, s, step), PermitSteps(settings, s, step);
    if step.Spawn? || step.End? {
      WorkSteps(settings, s, id);
      hide *;
      WorkMoves(settings, s.gate, steps[0], id);
    } else {
      hide *;
      HandlerMoves(settings, s, id);
    }
    Differs(s, next, id);
  }

  lemma Differs(s: System, next: System, id: nat)
    requires Matched(s) && Matched(next) && id in s.tickets && id in next.tickets
    ensures next.tickets[id] != s.tickets[id] || next.world.requests[id] != s.world.requests[id]
            || Caller(next.gate, id) != Caller(s.gate, id)
            ==> !Unchanged(s, next, id)
  {
  }

  lemma WorkSteps(settings: Settings, s: System, id: nat)
    requires settings.Valid() && Matched(s) && id in s.tickets
    requires var step := NextStep(settings, s, id); step.Spawn? || step.End?
    ensures var steps := PermitSteps(settings, s, NextStep(settings, s, id));
            && steps == [steps[0]] && steps[0].id == id
            && id in s.gate.callers
            && ((steps[0].Spawn? && s.gate.callers[id].Granted?) || (steps[0].End? && s.gate.callers[id].Running?))
  {
    hide Panics;
  }

  lemma WorkMoves(settings: Settings, gate: Permits.State, a: Permits.Action, id: nat)
    requires Permits.Inv(gate, settings.CpuPermits(), settings.Slots()) && a.id == id && id in gate.callers
    requires (a.Spawn? && gate.callers[id].Granted?) || (a.End? && gate.callers[id].Running?)
    ensures Caller(Permits.Run(gate, [a]), id) != Caller(gate, id)
  {
    hide Permits.Inv, Permits.Run;
    OneStep(gate, a, settings);
  }

  lemma HandlerMoves(settings: Settings, s: System, id: nat)
    requires settings.Valid() && Matched(s) && id in s.tickets && s.tickets[id].stage.Active()
    requires Fits(settings, s.tickets[id], s.world.requests[id])
    requires CallerFits(settings, s.tickets[id], Caller(s.gate, id)) && !WaitsForCpu(s, id)
    requires var step := NextStep(settings, s, id); !step.Spawn? && !step.End?
    ensures var t, r, step := s.tickets[id], s.world.requests[id], NextStep(settings, s, id);
            if GateAction(s, step).Some? then
              CommitmentRuns.StepRequest(settings.cache, s.world, r, GateAction(s, step).value).1 != r
            else StepTicket(settings, t, r, Caller(s.gate, id), step) != t
  {
    hide LadderReply, DecryptReply, HandleOf, EnforceAcp, SourceRung, FormRung, MetadataRung, Decrypted, Looked, Reconciled,
         LookupHit, GatesPassed, Expected, Vouched, AcpRung;
  }

  // ----- And every request can be answered ---------------------------------------------------------

  lemma {:induction false} RunAppend(settings: Settings, s: System, a: seq<Step>, b: seq<Step>)
    requires settings.Valid() && Matched(s)
    ensures Run(settings, s, a + b) == Run(settings, Run(settings, s, a), b)
    decreases |a|
  {
    if a == [] {
      assert a + b == b;
    } else {
      assert (a + b)[1..] == a[1..] + b;
      hide Next;
      RunAppend(settings, Next(settings, s, a[0]), a[1..], b);
    }
  }

  lemma RunOne(settings: Settings, s: System, step: Step)
    requires settings.Valid() && Matched(s)
    ensures Run(settings, s, [step]) == Next(settings, s, step)
  {
    hide Next;
    assert Run(settings, Next(settings, s, step), [step][1..]) == Next(settings, s, step);
  }

  /** Steps of the request, other than its cancellation, and work of others. */
  predicate HelpsAnswer(step: Step, id: nat)
  {
    step.Spawn? || step.End? || (OfRequest(step) && step.id == id && !step.Cancel? && !step.Admit?)
  }

  predicate AllHelp(steps: seq<Step>, id: nat)
  {
    forall i :: 0 <= i < |steps| ==> HelpsAnswer(steps[i], id)
  }

  function PanicIds(settings: Settings, s: System): (ids: set<nat>)
    requires settings.key.messageModulus > 0
  {
    set id | id in s.tickets && s.tickets[id].stage.Decrypting? && Panics(settings, s.tickets[id].stage.ct)
  }

  function Lifted(a: Permits.Action): (step: Step)
  {
    if a.End? then End(a.id, a.panicked) else Spawn(a.id)
  }

  function LiftedAll(actions: seq<Permits.Action>): (steps: seq<Step>)
    ensures |steps| == |actions|
  {
    seq(|actions|, i requires 0 <= i < |actions| => Lifted(actions[i]))
  }

  /** Work that starts and ends touches only the semaphores. */
  lemma WorkStep(settings: Settings, s: System, a: Permits.Action)
    requires AllFit(settings, s) && Permits.DrainOf(a, PanicIds(settings, s))
    ensures Next(settings, s, Lifted(a)) == s.(gate := Permits.Next(s.gate, a))
  {
    var step := Lifted(a);
    assert (step.Spawn? || step.End?) && OfRequest(step);
    assert settings.Valid() && Matched(s);
    hide *;
    WorkIsItself(settings, s, a);
    SameTickets(settings, s, step);
    SameWorld(settings, s, step);
    Permits.RunOne(s.gate, a);
    GateOfNext(settings, s, step);
    var next := Next(settings, s, step);
    assert next == System(s.world, next.gate, s.tickets);
  }

  lemma GateOfNext(settings: Settings, s: System, step: Step)
    requires settings.Valid() && Matched(s)
    ensures Next(settings, s, step).gate == Permits.Run(s.gate, PermitSteps(settings, s, step))
  {
    hide PermitSteps, NextTickets, NextWorld, Permits.Run;
  }

  lemma SameWorld(settings: Settings, s: System, step: Step)
    requires settings.Valid() && Matched(s) && (step.Spawn? || step.End?)
    ensures Next(settings, s, step).world == s.world
  {
    hide PermitSteps, NextTickets, Permits.Run;
  }

  lemma WorkIsItself(settings: Settings, s: System, a: Permits.Action)
    requires settings.Valid() && Matched(s) && Permits.DrainOf(a, PanicIds(settings, s))
    ensures PermitSteps(settings, s, Lifted(a)) == [a]
  {
    hide Panics;
  }

  lemma SameTickets(settings: Settings, s: System, step: Step)
    requires settings.Valid() && Matched(s) && (step.Spawn? || step.End?)
    ensures Next(settings, s, step).tickets == s.tickets
  {
    hide PermitSteps, NextWorld, Permits.Run, Matched;
    if step.id in s.tickets {
      assert s.tickets[step.id := s.tickets[step.id]] == s.tickets;
    }
  }

  lemma {:induction false} WorkRun(settings: Settings, s: System, actions: seq<Permits.Action>, panics: set<nat>)
    requires AllFit(settings, s) && panics == PanicIds(settings, s)
    requires forall i :: 0 <= i < |actions| ==> Permits.DrainOf(actions[i], panics)
    ensures Run(settings, s, LiftedAll(actions)) == s.(gate := Permits.Run(s.gate, actions))
    decreases |actions|
  {
    if actions != [] {
      var steps := LiftedAll(actions);
      assert steps[1..] == LiftedAll(actions[1..]) && steps[0] == Lifted(actions[0]);
      WorkStep(settings, s, actions[0]);
      NextFits(settings, s, steps[0]);
      var next := Next(settings, s, steps[0]);
      assert PanicIds(settings, next) == panics;
      hide Next, AllFit, Permits.Next, Panics, PanicIds;
      WorkRun(settings, next, actions[1..], panics);
    }
  }

  /** Work of others ending gives a waiting request its permit. */
  lemma WaiterGranted(settings: Settings, s: System, id: nat) returns (steps: seq<Step>)
    requires AllFit(settings, s) && id in s.tickets && WaitsForCpu(s, id)
    ensures AllHelp(steps, id)
    ensures var next := Run(settings, s, steps);
            && AllFit(settings, next) && next.tickets == s.tickets && next.world == s.world
            && Caller(next.gate, id) == Some(Permits.Granted)
  {
    var panics := PanicIds(settings, s);
    assert Permits.Inv(s.gate, settings.CpuPermits(), settings.Slots()) && settings.CpuPermits() > 0;
    assert id in s.gate.callers && s.gate.callers[id] == Permits.Waiting;
    hide *;
    var actions := Permits.WaiterIsServed(s.gate, id, panics, settings.CpuPermits(), settings.Slots());
    steps := LiftedAll(actions);
    LiftedHelp(actions, id, panics);
    WorkRun(settings, s, actions, panics);
    RunFits(settings, s, steps);
    NowGranted(Run(settings, s, steps).gate, id);
  }

  lemma NowGranted(gate: Permits.State, id: nat)
    ensures id in gate.callers && gate.callers[id] == Permits.Granted ==> Caller(gate, id) == Some(Permits.Granted)
  {
  }

  lemma LiftedHelp(actions: seq<Permits.Action>, id: nat, panics: set<nat>)
    requires Permits.OnlyDrains(actions, id, panics)
    ensures AllHelp(LiftedAll(actions), id)
    ensures forall i :: 0 <= i < |actions| ==> Permits.DrainOf(actions[i], panics)
  {
  }

  lemma NotDropped(settings: Settings, t: Ticket, r: Request, caller: Option<Permits.Stage>, step: Step)
    requires settings.Valid() && Fits(settings, t, r) && CallerFits(settings, t, caller) && t.stage.Active() && !step.Cancel?
    ensures Onward(settings, t, StepTicket(settings, t, r, caller, step))
  {
    hide EnforceAcp, VerdictResponse, SourceRung, FormRung, MetadataRung, Decrypted, LadderReply, HandleOf;
  }

  /** A stretch of a run that brings a request forward. */
  ghost predicate Forward(settings: Settings, s: System, steps: seq<Step>, next: System, id: nat)
    requires AllFit(settings, s) && id in s.tickets
  {
    && AllHelp(steps, id) && next == Run(settings, s, steps) && AllFit(settings, next) && id in next.tickets
    && RankOf(next, id) < RankOf(s, id)
    && Onward(settings, s.tickets[id], next.tickets[id])
  }

  ghost predicate Onward(settings: Settings, t: Ticket, after: Ticket)
    requires settings.key.messageModulus > 0
  {
    && (after.stage.Active() || after.stage.Replied?) && after.api == t.api
    && (t.stage.Decrypting? ==>
          after.stage == t.stage || after.stage == Replied(DecryptReply(settings, t.api, t.stage.ct)))
  }

  /** Work of others ending brings a waiter forward. */
  lemma WaitForward(settings: Settings, s: System, id: nat) returns (steps: seq<Step>, next: System)
    requires AllFit(settings, s) && id in s.tickets && WaitsForCpu(s, id)
    ensures Forward(settings, s, steps, next, id)
  {
    assert CallerFits(settings, s.tickets[id], Caller(s.gate, id)) && Caller(s.gate, id) == Some(Permits.Waiting);
    hide *;
    WaitingDecrypts(settings, s.tickets[id], Caller(s.gate, id));
    steps := WaiterGranted(settings, s, id);
    next := Run(settings, s, steps);
    GrantedDrops(settings, s, next, id);
    IsForward(settings, s, steps, next, id);
  }

  lemma GrantedDrops(settings: Settings, s: System, next: System, id: nat)
    requires settings.Valid() && id in s.tickets && id in s.world.requests && s.tickets[id].stage.Decrypting?
    requires next.tickets == s.tickets && next.world == s.world
    requires Caller(s.gate, id) == Some(Permits.Waiting) && Caller(next.gate, id) == Some(Permits.Granted)
    ensures RankOf(next, id) < RankOf(s, id) && Onward(settings, s.tickets[id], next.tickets[id])
  {
    hide DecryptReply;
  }

  /** So does a step of the request itself. */
  lemma StepForward(settings: Settings, s: System, id: nat) returns (steps: seq<Step>, next: System)
    requires AllFit(settings, s) && id in s.tickets && s.tickets[id].stage.Active() && !WaitsForCpu(s, id)
    ensures Forward(settings, s, steps, next, id)
  {
    var t, r, caller, step := s.tickets[id], s.world.requests[id], Caller(s.gate, id), NextStep(settings, s, id);
    assert Fits(settings, t, r) && CallerFits(settings, t, caller) && settings.Valid() && Matched(s);
    assert OfRequest(step) && step.id == id && !step.Cancel? && !step.Admit?;
    hide *;
    steps := [step];
    next := Next(settings, s, step);
    OwnHelps(step, id);
    UnfoldNext(settings, s, step);
    NextStepMoves(settings, s, id);
    ChangeDrops(settings, s, step, id);
    NextFits(settings, s, step);
    RunOne(settings, s, step);
    NotDropped(settings, t, r, caller, step);
    IsForward(settings, s, steps, next, id);
  }

  lemma OwnHelps(step: Step, id: nat)
    requires OfRequest(step) && step.id == id && !step.Cancel? && !step.Admit?
    ensures AllHelp([step], id)
  {
  }

  lemma IsForward(settings: Settings, s: System, steps: seq<Step>, next: System, id: nat)
    requires AllFit(settings, s) && id in s.tickets && AllHelp(steps, id) && next == Run(settings, s, steps)
    requires AllFit(settings, next) && id in next.tickets && RankOf(next, id) < RankOf(s, id)
    requires Onward(settings, s.tickets[id], next.tickets[id])
    ensures Forward(settings, s, steps, next, id)
  {
  }

  /** From every reachable state a request that is under way can be answered: by its
      own steps, and where it waits for a permit by the work of others ending. */
  lemma {:induction false} ReachesReply(settings: Settings, s: System, id: nat) returns (steps: seq<Step>)
    requires AllFit(settings, s) && id in s.tickets && s.tickets[id].stage.Active()
    ensures AllHelp(steps, id)
    ensures var end := Run(settings, s, steps);
            && id in end.tickets && end.tickets[id].stage.Replied?
            && (s.tickets[id].stage.Decrypting? ==>
                  end.tickets[id].stage.reply == DecryptReply(settings, s.tickets[id].api, s.tickets[id].stage.ct))
    decreases RankOf(s, id)
  {
    assert settings.Valid() && Matched(s);
    hide Run, AllFit, DecryptReply, RankOf, AllHelp;
    var next: System;
    if WaitsForCpu(s, id) {
      steps, next := WaitForward(settings, s, id);
    } else {
      steps, next := StepForward(settings, s, id);
    }
    if next.tickets[id].stage.Active() {
      var rest := ReachesReply(settings, next, id);
      RunAppend(settings, s, steps, rest);
      HelpTogether(steps, rest, id);
      steps := steps + rest;
    }
  }

  lemma HelpTogether(a: seq<Step>, b: seq<Step>, id: nat)
    requires AllHelp(a, id) && AllHelp(b, id)
    ensures AllHelp(a + b, id)
  {
  }

  lemma WaitingDecrypts(settings: Settings, t: Ticket, caller: Option<Permits.Stage>)
    requires settings.Valid() && CallerFits(settings, t, caller) && caller == Some(Permits.Waiting)
    ensures t.stage.Decrypting?
  {
  }
}
