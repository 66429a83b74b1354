/** What every run of the service keeps (src/http.rs): replies, slots, where a
    served hash was read, and one answer for one handle. */
module ServiceResults {
  import opened Options
  import opened Lwe
  import opened Radix
  import opened RadixRoundTrip
  import opened Commitment
  import CommitmentRuns
  import CommitmentHistory
  import CommitmentStaleness
  import Permits
  import opened Handles
  import opened Pipeline
  import opened ServiceRuns

  // ----- Replies -------------------------------------------------------------------------

  lemma RunStartFits(settings: Settings, steps: seq<Step>)
    requires settings.Valid()
    ensures AllFit(settings, Start(settings)) && AllFit(settings, Run(settings, Start(settings), steps))
  {
    StartFits(settings);
    RunFits(settings, Start(settings), steps);
  }

  ghost predicate RepliedIn(settings: Settings, steps: seq<Step>, id: nat)
    requires settings.Valid()
  {
    var end := Run(settings, Start(settings), steps);
    id in end.tickets && end.tickets[id].stage.Replied?
  }

  /** Whatever else runs in between, whoever is cancelled and whichever gate ends
      first, a request is answered as the order of the rungs answers what that
      request has heard: whether it got a slot, the ACL's word, its own reads of
      the cache and the registry, and the served bytes. */
  lemma RepliesAsTheLadder(settings: Settings, steps: seq<Step>, id: nat)
    requires settings.Valid() && RepliedIn(settings, steps, id)
    ensures var end := Run(settings, Start(settings), steps);
            var t := end.tickets[id];
            && |t.handle| == 32
            && t.stage.reply
               == LadderReply(t.api, settings.Gates(), settings.key, t.handle, t.admitted, Heard(t, end.world.requests[id]))
            && (t.stage.reply.Success? ==> t.admitted)
  {
    RunStartFits(settings, steps);
    var end := Run(settings, Start(settings), steps);
    var t := end.tickets[id];
    assert Fits(settings, t, end.world.requests[id]);
    hide Run, AllFit, LadderReply, Fits;
    ShedReply(settings, t.api, t.handle, Heard(t, end.world.requests[id]));
  }

  /** Schedules do not matter: two requests, in any two runs, that hear the same
      about the same handle on the same API get the same reply. */
  lemma ScheduleIndependent(settings: Settings, steps: seq<Step>, id: nat, steps': seq<Step>, id': nat)
    requires settings.Valid() && RepliedIn(settings, steps, id) && RepliedIn(settings, steps', id')
    ensures var one, two := Run(settings, Start(settings), steps), Run(settings, Start(settings), steps');
            var t, t' := one.tickets[id], two.tickets[id'];
            && t.api == t'.api && t.handle == t'.handle && t.admitted == t'.admitted
            && Heard(t, one.world.requests[id]) == Heard(t', two.world.requests[id'])
            ==> t.stage.reply == t'.stage.reply
  {
    RepliesAsTheLadder(settings, steps, id);
    RepliesAsTheLadder(settings, steps', id');
  }

  // ----- What was heard was said ------------------------------------------------------------

  /** What a ticket has noted was brought by steps of its own. */
  ghost predicate Noted(t: Ticket, r: Request, id: nat, steps: seq<Step>)
  {
    && (t.acp.Some? ==> HearAcl(id, t.acp.value) in steps)
    && (t.source.Some? ==> Fetch(id, t.source.value) in steps)
    && Admit(id, t.api, t.presented, r.key, r.actual) in steps && t.handle == BigEndian(r.key.handle, 32)
  }

  ghost predicate AllNoted(s: System, steps: seq<Step>)
  {
    && s.tickets.Keys == s.world.requests.Keys
    && forall id :: id in s.tickets ==> Noted(s.tickets[id], s.world.requests[id], id, steps)
  }

  lemma NotedLater(t: Ticket, r: Request, id: nat, steps: seq<Step>, step: Step)
    requires Noted(t, r, id, steps)
    ensures Noted(t, r, id, steps + [step])
  {
  }

  lemma OwnNoted(settings: Settings, t: Ticket, r: Request, r': Request, caller: Option<Permits.Stage>, step: Step, steps: seq<Step>)
    requires settings.key.messageModulus > 0 && |t.handle| == 32 && OfRequest(step)
    requires Noted(t, r, step.id, steps) && r'.key == r.key && r'.actual == r.actual
    ensures Noted(StepTicket(settings, t, r, caller, step), r', step.id, steps + [step])
  {
    hide BigEndian, Joined, Received, Vetted, Finished;
    assert (steps + [step])[|steps|] == step;
    NotedLater(t, r, step.id, steps, step);
  }

  /** A request keeps its key and the bytes it will be served. */
  lemma SameRequest(settings: Settings, s: System, step: Step, id: nat)
    requires settings.Valid() && Matched(s) && id in s.tickets
    ensures var r := Next(settings, s, step).world.requests[id];
            r.key == s.world.requests[id].key && r.actual == s.world.requests[id].actual
  {
    UnfoldNext(settings, s, step);
    hide Next, CommitmentRuns.Next, PermitSteps;
    if GateAction(s, step).Some? {
      SameInWorld(settings.cache, s.world, GateAction(s, step).value, id);
    }
  }

  lemma SameInWorld(c: CommitmentRuns.Config, w: World, a: CommitmentRuns.Action, id: nat)
    requires id in w.requests
    ensures var r := CommitmentRuns.Next(c, w, a).requests[id];
            r.key == w.requests[id].key && r.actual == w.requests[id].actual
  {
    hide LookupHit, Looked, Reconciled, NeedsReread, EnforceIntegrity, CommitmentRuns.Gate;
  }

  lemma NextNoted(settings: Settings, s: System, steps: seq<Step>, step: Step)
    requires settings.Valid() && Matched(s) && AllNoted(s, steps)
    ensures AllNoted(Next(settings, s, step), steps + [step])
  {
    var next := Next(settings, s, step);
    UnfoldNext(settings, s, step);
    hide Next, StepTicket, NextWorld, PermitSteps, Noted, Arrived;
    forall id | id in next.tickets
      ensures Noted(next.tickets[id], next.world.requests[id], id, steps + [step])
    {
      if id !in s.tickets {
        ArrivedNoted(settings, s, step, steps);
      } else if OfRequest(step) && step.id == id {
        SameRequest(settings, s, step, id);
        OwnNoted(settings, s.tickets[id], s.world.requests[id], next.world.requests[id], Caller(s.gate, id), step, steps);
      } else {
        OthersStay(settings, s, step, id);
        NotedLater(next.tickets[id], next.world.requests[id], id, steps, step);
      }
    }
  }

  lemma ArrivedNoted(settings: Settings, s: System, step: Step, steps: seq<Step>)
    requires settings.Valid() && Matched(s) && step.Admit? && step.id !in s.tickets
    ensures var next := Next(settings, s, step);
            Noted(next.tickets[step.id], next.world.requests[step.id], step.id, steps + [step])
  {
    UnfoldNext(settings, s, step);
    ArrivedRequest(settings, s, step);
    hide Next, BigEndian;
    assert (steps + [step])[|steps|] == step;
  }

  lemma {:induction false} RunNoted(settings: Settings, s: System, past: seq<Step>, steps: seq<Step>)
    requires settings.Valid() && Matched(s) && AllNoted(s, past)
    ensures AllNoted(Run(settings, s, steps), past + steps)
    decreases |steps|
  {
    if steps == [] {
      assert past + steps == past;
    } else {
      hide Next, Matched, AllNoted;
      NextNoted(settings, s, past, steps[0]);
      RunNoted(settings, Next(settings, s, steps[0]), past + [steps[0]], steps[1..]);
      assert past + [steps[0]] + steps[1..] == past + steps;
    }
  }

  /** In every run the ACL's word and the server's answer that a request acts on are
      those that a step of the run brought it, and its version, its handle and its
      credentials are those it arrived with. */
  lemma HeardWasSaid(settings: Settings, steps: seq<Step>, id: nat)
    requires settings.Valid() && id in Run(settings, Start(settings), steps).tickets
    ensures var end := Run(settings, Start(settings), steps);
            id in end.world.requests && Noted(end.tickets[id], end.world.requests[id], id, steps)
  {
    assert Matched(Start(settings)) && AllNoted(Start(settings), []);
    hide Run, Noted;
    RunNoted(settings, Start(settings), [], steps);
    assert [] + steps == steps;
  }

  // ----- Slots and permits -----------------------------------------------------------------

  function ActiveIds(s: System): (ids: set<nat>)
  {
    set id | id in s.tickets && s.tickets[id].stage.Active()
  }

  /** In every run no more requests are under way than there are slots, each of
      them holds one, and no more closures exist than there are CPU permits;
      replies, refusals and cancellations have given theirs back. */
  lemma AtMostAdmitted(settings: Settings, steps: seq<Step>)
    requires settings.Valid()
    ensures var end := Run(settings, Start(settings), steps);
            && end.gate.callers.Keys == ActiveIds(end)
            && |ActiveIds(end)| + end.gate.slots == settings.Slots()
            && |end.gate.work| + end.gate.free <= settings.CpuPermits()
  {
    RunStartFits(settings, steps);
    hide Run;
    ActiveCallers(settings, Run(settings, Start(settings), steps));
  }

  lemma ActiveCallers(settings: Settings, s: System)
    requires AllFit(settings, s)
    ensures s.gate.callers.Keys == ActiveIds(s)
    ensures |ActiveIds(s)| + s.gate.slots == settings.Slots()
    ensures |s.gate.work| + s.gate.free <= settings.CpuPermits()
  {
    hide Fits, RequestsFit;
    PlacedGate(settings, s.gate);
    assert Permits.Counted(s.gate, settings.CpuPermits(), settings.Slots());
    hide Permits.Inv;
    assert s.gate.callers.Keys == ActiveIds(s) by {
      hide Permits.Counted, Permits.Placed;
      forall id
        ensures id in s.gate.callers <==> id in ActiveIds(s)
      {
        if id in s.tickets {
          assert CallerFits(settings, s.tickets[id], Caller(s.gate, id));
        }
      }
    }
    assert |s.gate.callers.Keys| == |s.gate.callers|;
  }

  /** A request that is cancelled while it is under way gives its slot back at once
      and is never answered, and an answer once given is never taken back. */
  lemma CancelledForGood(settings: Settings, s: System, id: nat, steps: seq<Step>)
    requires AllFit(settings, s) && id in s.tickets && s.tickets[id].stage.Active()
    ensures var next := Next(settings, s, Cancel(id));
            && next.gate.slots == s.gate.slots + 1
            && id in Run(settings, next, steps).tickets && Run(settings, next, steps).tickets[id].stage == Dropped
  {
    assert settings.Valid() && Matched(s);
    hide *;
    CancelFrees(settings, s, id);
    EndedForGood(settings, Next(settings, s, Cancel(id)), id, steps);
  }

  lemma CancelFrees(settings: Settings, s: System, id: nat)
    requires AllFit(settings, s) && id in s.tickets && s.tickets[id].stage.Active()
    ensures var next := Next(settings, s, Cancel(id));
            next.gate.slots == s.gate.slots + 1 && id in next.tickets && next.tickets[id].stage == Dropped
  {
    var next := Next(settings, s, Cancel(id));
    CancelStep(settings, s, id);
    NextFits(settings, s, Cancel(id));
    hide AllFit, Next, Matched;
    ActiveCallers(settings, s);
    ActiveCallers(settings, next);
    OneLess(s, next, id);
  }

  lemma OneLess(s: System, next: System, id: nat)
    requires id in s.tickets && s.tickets[id].stage.Active()
    requires next.tickets == s.tickets[id := s.tickets[id].(stage := Dropped)]
    ensures |ActiveIds(next)| == |ActiveIds(s)| - 1
  {
    assert ActiveIds(next) == ActiveIds(s) - {id};
  }

  lemma CancelStep(settings: Settings, s: System, id: nat)
    requires settings.Valid() && Matched(s) && id in s.tickets && s.tickets[id].stage.Active()
    ensures Next(settings, s, Cancel(id)).tickets == s.tickets[id := s.tickets[id].(stage := Dropped)]
  {
    TicketsOfNext(settings, s, Cancel(id));
    hide Next;
  }

  lemma {:induction false} EndedForGood(settings: Settings, s: System, id: nat, steps: seq<Step>)
    requires settings.Valid() && Matched(s) && id in s.tickets && !s.tickets[id].stage.Active()
    ensures id in Run(settings, s, steps).tickets && Run(settings, s, steps).tickets[id] == s.tickets[id]
    decreases |steps|
  {
    if steps != [] {
      hide Next, Matched;
      EndedStep(settings, s, id, steps[0]);
      EndedForGood(settings, Next(settings, s, steps[0]), id, steps[1..]);
    }
  }

  lemma EndedStep(settings: Settings, s: System, id: nat, step: Step)
    requires settings.Valid() && Matched(s) && id in s.tickets && !s.tickets[id].stage.Active()
    ensures id in Next(settings, s, step).tickets && Next(settings, s, step).tickets[id] == s.tickets[id]
  {
    TicketsOfNext(settings, s, step);
    hide Next;
  }

  lemma TicketsOfNext(settings: Settings, s: System, step: Step)
    requires settings.Valid() && Matched(s)
    ensures var next := Next(settings, s, step);
            if OfRequest(step) && step.id in s.tickets then
              next.tickets == s.tickets[step.id :=
                StepTicket(settings, s.tickets[step.id], s.world.requests[step.id], Caller(s.gate, step.id), step)]
            else
              forall id :: id in s.tickets ==> id in next.tickets && next.tickets[id] == s.tickets[id]
  {
    hide StepTicket, PermitSteps, NextWorld, Permits.Run, Arrived, Matched;
  }

  // ----- The run of the commitment gate underneath ----------------------------------------------

  /** The commitment gate's share of a run. */
  ghost function Projected(settings: Settings, s: System, steps: seq<Step>): (actions: seq<CommitmentRuns.Action>)
    requires settings.Valid() && Matched(s)
    decreases |steps|
  {
    if steps == [] then []
    else
      (match GateAction(s, steps[0]) case Some(a) => [a] case None => [])
      + Projected(settings, Next(settings, s, steps[0]), steps[1..])
  }

  lemma {:induction false} RunProjects(settings: Settings, s: System, steps: seq<Step>)
    requires settings.Valid() && Matched(s)
    ensures Run(settings, s, steps).world == CommitmentRuns.Run(settings.cache, s.world, Projected(settings, s, steps))
    decreases |steps|
  {
    if steps != [] {
      var next := Next(settings, s, steps[0]);
      UnfoldNext(settings, s, steps[0]);
      hide Next, NextWorld, GateAction, CommitmentRuns.Run;
      RunProjects(settings, next, steps[1..]);
      ProjectStep(settings, s, steps[0], Projected(settings, next, steps[1..]));
    }
  }

  lemma ProjectStep(settings: Settings, s: System, step: Step, rest: seq<CommitmentRuns.Action>)
    ensures CommitmentRuns.Run(settings.cache, s.world, (match GateAction(s, step) case Some(a) => [a] case None => []) + rest)
         == CommitmentRuns.Run(settings.cache, NextWorld(settings, s, step), rest)
  {
    match GateAction(s, step)
    case Some(a) => CommitmentRuns.RunCons(settings.cache, s.world, a, rest);
    case None => assert [] + rest == rest;
  }

  predicate NoWipes(steps: seq<Step>)
  {
    forall i :: 0 <= i < |steps| ==> !steps[i].Wipe?
  }

  lemma {:induction false} ProjectedNoWipe(settings: Settings, s: System, steps: seq<Step>)
    requires settings.Valid() && Matched(s) && NoWipes(steps)
    ensures CommitmentRuns.NoWipe(Projected(settings, s, steps))
    decreases |steps|
  {
    if steps != [] {
      ProjectedNoWipe(settings, Next(settings, s, steps[0]), steps[1..]);
      hide Next;
    }
  }

  // ----- Where a served hash was read --------------------------------------------------------------

  ghost predicate ServedIn(settings: Settings, steps: seq<Step>, id: nat)
    requires settings.Valid()
  {
    RepliedIn(settings, steps, id) && Run(settings, Start(settings), steps).tickets[id].stage.reply.Success?
  }

  ghost function ProjectedRun(settings: Settings, steps: seq<Step>): (actions: seq<CommitmentRuns.Action>)
    requires settings.Valid()
  {
    Projected(settings, Start(settings), steps)
  }

  /** A plaintext that leaves is cleared by what was heard; and in enforce mode the
      hash of its bytes was read from the registry for this handle, by this
      request, or by an earlier one that stored it less than one TTL before this
      one looked it up. */
  lemma ServedWasRead(settings: Settings, steps: seq<Step>, id: nat)
    requires settings.Valid() && ServedIn(settings, steps, id)
    ensures var end := Run(settings, Start(settings), steps);
            var t, r := end.tickets[id], end.world.requests[id];
            && |t.handle| == 32 && HandleOf(t.handle, r.key)
            && Cleared(settings.Gates(), settings.key, t.handle, Heard(t, r), t.stage.reply.value)
            && t.source.Some? && t.source.value.Served? && t.source.value.ct.hash == r.actual
            && (!settings.cache.warnOnly ==>
                  var actions, hash := ProjectedRun(settings, steps), t.source.value.ct.hash;
                  && hash != 0
                  && (|| CommitmentHistory.ReadItself(settings.cache, actions, id, r.key, hash)
                      || CommitmentHistory.ServedCached(settings.cache, actions, id, r.key, hash)))
  {
    RunStartFits(settings, steps);
    RunProjects(settings, Start(settings), steps);
    var end := Run(settings, Start(settings), steps);
    var t, r := end.tickets[id], end.world.requests[id];
    assert Fits(settings, t, r);
    assert end.world == CommitmentRuns.Run(settings.cache, CommitmentRuns.Initial, ProjectedRun(settings, steps));
    hide Run, AllFit, Projected, ProjectedRun, HandleOf;
    ServedIff(t.api, settings.Gates(), settings.key, t.handle, t.admitted, Heard(t, r));
    hide Cleared, FirstRefusal;
    if !settings.cache.warnOnly {
      hide Fits, LadderReply;
      CommitmentHistory.NoRefusalOnCacheAlone(settings.cache, ProjectedRun(settings, steps), id);
    }
  }

  /** With the ACP gate configured, nothing is served unless the ACL allowed that
      very request, and what is served is what the server answered it. */
  lemma ServedWasAllowed(settings: Settings, steps: seq<Step>, id: nat)
    requires settings.Valid() && ServedIn(settings, steps, id)
    ensures var t := Run(settings, Start(settings), steps).tickets[id];
            && (settings.acp ==> HearAcl(id, Allowed) in steps)
            && t.source.Some? && t.source.value.Served? && Fetch(id, t.source.value) in steps
            && FromWire(t.source.value.ct.encryptionType) == Ok(t.stage.reply.value.1)
            && Decrypted(settings.key, t.source.value.ct) == Ok(t.stage.reply.value.0)
  {
    HeardWasSaid(settings, steps, id);
    ServedWasRead(settings, steps, id);
    var t := Run(settings, Start(settings), steps).tickets[id];
    var ty := t.stage.reply.value.1;
    hide Run, DecryptCompressed, HandleOf, HandleType, HandleZone;
    WireRoundTrip(ty.Wire(), ty);
  }

  // ----- One answer for one handle --------------------------------------------------------------------

  lemma ReadIsHeld(c: CommitmentRuns.Config, actions: seq<CommitmentRuns.Action>, id: nat, k: Key, h: Hash)
    requires CommitmentRuns.NoWipe(actions) && h != 0
    requires CommitmentHistory.ReadItself(c, actions, id, k, h) || CommitmentHistory.ServedCached(c, actions, id, k, h)
    ensures CommitmentRuns.OnChain(CommitmentRuns.Run(c, CommitmentRuns.Initial, actions).registry, k) == h
  {
    var m: nat, reader: nat;
    if CommitmentHistory.ReadItself(c, actions, id, k, h) {
      reader := id;
      m :| CommitmentHistory.ReadAt(c, CommitmentRuns.Initial, actions, m, reader, k, h);
    } else {
      var first: nat, j: nat, l: nat :| CommitmentHistory.ServedFromRead(c, actions, first, j, l, id, k, h);
      m, reader := first, actions[j].id;
    }
    hide CommitmentHistory.At;
    assert CommitmentStaleness.HoldsAt(c, CommitmentRuns.Initial, actions, m, k, h);
    CommitmentStaleness.HeldStays(c, CommitmentRuns.Initial, actions, m, |actions|, k, h);
    CommitmentHistory.AtEnds(c, CommitmentRuns.Initial, actions);
  }

  /** What the chain holds for the handle of a served request, at the end of a run
      without wipes, is the hash of the bytes that were served. */
  lemma ServedIsOnChain(settings: Settings, steps: seq<Step>, id: nat)
    requires settings.Valid() && ServedIn(settings, steps, id) && !settings.cache.warnOnly && NoWipes(steps)
    ensures var end := Run(settings, Start(settings), steps);
            var t, r := end.tickets[id], end.world.requests[id];
            && t.source.Some? && t.source.value.Served?
            && CommitmentRuns.OnChain(end.world.registry, r.key) == t.source.value.ct.hash
  {
    ServedWasRead(settings, steps, id);
    RunProjects(settings, Start(settings), steps);
    ProjectedNoWipe(settings, Start(settings), steps);
    var end := Run(settings, Start(settings), steps);
    var t, r := end.tickets[id], end.world.requests[id];
    assert end.world == CommitmentRuns.Run(settings.cache, CommitmentRuns.Initial, ProjectedRun(settings, steps));
    hide Run, Projected, Cleared, HandleOf;
    ReadIsHeld(settings.cache, ProjectedRun(settings, steps), id, r.key, t.source.value.ct.hash);
  }

  /** What the integrity gate is for: while the registry is not wiped, and as far as
      equal hashes mean equal bytes, any two requests for one handle that are
      served, at whatever times and from whatever the server sent, get the same
      plaintext and the same type. */
  lemma OneAnswerPerHandle(settings: Settings, steps: seq<Step>, id: nat, id': nat)
    requires settings.Valid() && !settings.cache.warnOnly && NoWipes(steps)
    requires ServedIn(settings, steps, id) && ServedIn(settings, steps, id')
    requires var end := Run(settings, Start(settings), steps);
             end.world.requests[id].key.handle == end.world.requests[id'].key.handle
    ensures var end := Run(settings, Start(settings), steps);
            var t, t' := end.tickets[id], end.tickets[id'];
            && t.source.Some? && t.source.value.Served? && t'.source.Some? && t'.source.value.Served?
            && var ct, ct' := t.source.value.ct, t'.source.value.ct;
            && ct.hash == ct'.hash
            && (ct.payload == ct'.payload ==> t.stage.reply == t'.stage.reply)
  {
    ServedWasRead(settings, steps, id);
    ServedWasRead(settings, steps, id');
    ServedIsOnChain(settings, steps, id);
    ServedIsOnChain(settings, steps, id');
    var end := Run(settings, Start(settings), steps);
    var t, t', r, r' := end.tickets[id], end.tickets[id'], end.world.requests[id], end.world.requests[id'];
    hide Run, ProjectedRun, ServedIn, RepliedIn, NoWipes;
    assert t.handle == t'.handle;
    hide HandleOf;
    if t.source.value.ct.payload == t'.source.value.ct.payload {
      SamePlaintext(settings.Gates(), settings.key, t.handle, Heard(t, r), Heard(t', r'),
                    t.stage.reply.value, t'.stage.reply.value);
    }
  }

  /** Cleared for one handle with one payload: one type and one value. */
  lemma SamePlaintext(gates: Pipeline.Gates, key: DirectKey, handle: seq<nat>, a: Answers, a': Answers, p: Plaintext, p': Plaintext)
    requires key.messageModulus > 0 && |handle| == 32
    requires Cleared(gates, key, handle, a, p) && Cleared(gates, key, handle, a', p')
    requires a.source.ct.payload == a'.source.ct.payload
    ensures p == p'
  {
    hide HandleType, HandleZone, DecryptCompressed, Committed;
    WireRoundTrip(p.1.Wire(), p.1);
    WireRoundTrip(p.1.Wire(), p'.1);
  }
}
