/** The two semaphores of the service (src/cpu.rs, src/http.rs): an admission
    slot held for a whole request and taken without waiting, and a CPU permit
    waited for in arrival order, which travels with the blocking work and so
    outlives a caller that goes away. */
module Permits {
  type Id = nat

  /** Where the future of a request stands. */
  datatype Stage =
    | Admitted                     // holds a slot, not yet at the CPU gate
    | Waiting                      // queued at the CPU gate
    | Granted                      // assigned a permit, work not yet spawned
    | Running                      // awaiting its blocking work
    | Finished(panicked: bool)     // has the work's result
    | Dropped                      // cancelled; its slot is about to be freed

  /** `work` holds the closures on the blocking pool, each with its permit.
      `arrivals`, `grants` and `gone` record the history of the gate: who came,
      who was assigned a permit, who was cancelled while waiting. */
  datatype State = State(
    slots: nat,
    free: nat,
    queue: seq<Id>,
    callers: map<Id, Stage>,
    work: set<Id>,
    seen: set<Id>,
    arrivals: seq<Id>,
    grants: seq<Id>,
    gone: set<Id>)

  datatype Action =
    | Arrive(id: Id)                   // try_acquire on the admission semaphore
    | Enter(id: Id)                    // acquire on the CPU semaphore
    | Spawn(id: Id)                    // spawn_blocking, the permit moved in
    | End(id: Id, panicked: bool)      // the closure returns or unwinds
    | Cancel(id: Id)                   // the client disconnects: the future is dropped
    | Exit(id: Id)                     // the slot is freed, after a response or a drop

  function AtLeastOne(n: nat): (r: nat)
    ensures r >= 1 && (n >= 1 ==> r == n)
  {
    if n == 0 then 1 else n
  }

  function Initial(decrypt: nat, admit: nat): (r: State)
  {
    State(AtLeastOne(admit), AtLeastOne(decrypt), [], map[], {}, {}, [], [], {})
  }

  /** A freed permit goes straight to the oldest waiter. */
  function Release(s: State): (r: State)
  {
    if s.queue == [] then s.(free := s.free + 1)
    else s.(queue := s.queue[1..], callers := s.callers[s.queue[0] := Granted], grants := s.grants + [s.queue[0]])
  }

  function Remove(q: seq<Id>, id: Id): (r: seq<Id>)
  {
    if q == [] then [] else if q[0] == id then q[1..] else [q[0]] + Remove(q[1..], id)
  }

  /** The closure is gone, its permit not yet given back, and a caller that still
      waits for it has the result. */
  function Ended(s: State, id: Id, panicked: bool): (ended: State)
  {
    if id in s.callers && s.callers[id] == Running
    then s.(work := s.work - {id}, callers := s.callers[id := Finished(panicked)])
    else s.(work := s.work - {id})
  }

  function Detached(s: State, id: Id): (dropped: State)
  {
    s.(callers := s.callers[id := Dropped])
  }

  /** Dropping the future of a request: a queued waiter leaves the queue, an
      unspent permit goes back, spawned work is detached. */
  function Abandon(s: State, id: Id): (r: State)
    requires id in s.callers
  {
    var dropped := Detached(s, id);
    match s.callers[id]
    case Waiting => dropped.(queue := Remove(s.queue, id), gone := s.gone + {id})
    case Granted => Release(dropped)
    case _ => dropped
  }

  /** One step; a step that is not possible changes nothing. */
  function Next(s: State, a: Action): (r: State)
  {
    match a
    case Arrive(id) =>
      if id in s.seen then s
      else if s.slots == 0 then s.(seen := s.seen + {id})
      else s.(slots := s.slots - 1, callers := s.callers[id := Admitted], seen := s.seen + {id})
    case Enter(id) =>
      if id !in s.callers || s.callers[id] != Admitted then s
      else if s.free > 0 then
        s.(free := s.free - 1, callers := s.callers[id := Granted], arrivals := s.arrivals + [id], grants := s.grants + [id])
      else s.(queue := s.queue + [id], callers := s.callers[id := Waiting], arrivals := s.arrivals + [id])
    case Spawn(id) =>
      if id !in s.callers || s.callers[id] != Granted then s
      else s.(callers := s.callers[id := Running], work := s.work + {id})
    case End(id, panicked) =>
      if id !in s.work then s else Release(Ended(s, id, panicked))
    case Cancel(id) =>
      if id !in s.callers || s.callers[id] == Dropped then s else Abandon(s, id)
    case Exit(id) =>
      if id !in s.callers || !MayExit(s.callers[id]) then s
      else s.(slots := s.slots + 1, callers := s.callers - {id})
  }

  /** A request that failed before the gate, one that has its result, and a
      cancelled one. */
  predicate MayExit(stage: Stage)
  {
    stage.Admitted? || stage.Finished? || stage.Dropped?
  }

  function Run(s: State, actions: seq<Action>): (r: State)
    decreases |actions|
  {
    if actions == [] then s else Run(Next(s, actions[0]), actions[1..])
  }

  // ----- The invariant ------------------------------------------------------------------

  /** Requests holding a permit they have not handed to the blocking pool. */
  function Unspent(callers: map<Id, Stage>): (r: set<Id>)
  {
    set id | id in callers && callers[id] == Granted
  }

  ghost predicate Distinct(q: seq<Id>)
  {
    forall i, j :: 0 <= i < j < |q| ==> q[i] != q[j]
  }

  /** Who is where. */
  ghost predicate Placed(s: State)
  {
    && Distinct(s.queue)
    && (forall id :: id in s.queue <==> id in s.callers && s.callers[id] == Waiting)
    && (forall id :: id in s.callers && s.callers[id] == Running ==> id in s.work)
    && (forall id :: id in s.work && id in s.callers ==> s.callers[id] == Running || s.callers[id] == Dropped)
    && s.work <= s.seen
    && s.callers.Keys <= s.seen
  }

  /** Every permit is free, assigned, or riding with work; none is free while
      somebody waits. */
  ghost predicate Counted(s: State, permits: nat, cap: nat)
  {
    && s.free + |Unspent(s.callers)| + |s.work| == permits
    && s.slots + |s.callers| == cap
    && (s.queue != [] ==> s.free == 0)
  }

  function Kept(ids: seq<Id>, gone: set<Id>): (r: seq<Id>)
  {
    if ids == [] then []
    else Kept(ids[..|ids| - 1], gone) + if ids[|ids| - 1] in gone then [] else [ids[|ids| - 1]]
  }

  /** Permits were assigned in arrival order, but for those who gave up. */
  ghost predicate Fair(s: State)
  {
    && Kept(s.arrivals, s.gone) == s.grants + s.queue
    && Recorded(s)
    && Distinct(s.arrivals)
    && Apart(s.grants, s.queue)
  }

  ghost predicate Recorded(s: State)
  {
    forall id :: id in s.arrivals || id in s.gone ==> id in s.seen && (id in s.callers ==> s.callers[id] != Admitted)
  }

  ghost predicate Apart(a: seq<Id>, b: seq<Id>)
  {
    forall id :: id in a ==> id !in b
  }

  ghost predicate Inv(s: State, permits: nat, cap: nat)
  {
    Placed(s) && Counted(s, permits, cap) && Fair(s)
  }

  lemma InitialInv(decrypt: nat, admit: nat)
    ensures Inv(Initial(decrypt, admit), AtLeastOne(decrypt), AtLeastOne(admit))
  {
    assert Unspent(map[]) == {};
  }

  lemma {:induction false} RemoveExact(q: seq<Id>, id: Id)
    requires Distinct(q)
    ensures Distinct(Remove(q, id)) && |Remove(q, id)| <= |q|
    ensures forall x :: x in Remove(q, id) <==> x in q && x != id
  {
    if q != [] && q[0] != id {
      RemoveExact(q[1..], id);
      var rest := Remove(q[1..], id);
      assert q[0] !in q[1..];
      forall x
        ensures x in [q[0]] + rest <==> x == q[0] || x in rest
      {
      }
      forall x
        ensures x in q <==> x == q[0] || x in q[1..]
      {
      }
    } else if q != [] {
      forall x
        ensures x in q <==> x == q[0] || x in q[1..]
      {
      }
      assert q[0] !in q[1..];
    }
  }

  /** Restaging one request moves at most that request in or out of Unspent. */
  lemma Restage(callers: map<Id, Stage>, id: Id, stage: Stage)
    ensures |Unspent(callers[id := stage])|
         == |Unspent(callers)| + (if stage == Granted then 1 else 0) - (if id in Unspent(callers) then 1 else 0)
    ensures |callers[id := stage]| == |callers| + if id in callers then 0 else 1
  {
    var before, after := Unspent(callers), Unspent(callers[id := stage]);
    KeyCount(callers, id, stage);
    assert after - {id} == before - {id} && (id in after <==> stage == Granted);
    hide Unspent;
    SetCount(before, id);
    SetCount(after, id);
  }

  lemma SetCount(ids: set<Id>, id: Id)
    ensures |ids| == |ids - {id}| + if id in ids then 1 else 0
  {
    if id !in ids {
      assert ids - {id} == ids;
    }
  }

  lemma KeyCount(callers: map<Id, Stage>, id: Id, stage: Stage)
    ensures |callers[id := stage]| == |callers| + if id in callers then 0 else 1
  {
    var after := callers[id := stage];
    assert after.Keys == callers.Keys + {id};
    assert |after.Keys| == |after| && |callers.Keys| == |callers|;
  }

  lemma Unstage(callers: map<Id, Stage>, id: Id)
    requires id in callers && callers[id] != Granted
    ensures Unspent(callers - {id}) == Unspent(callers)
    ensures |callers - {id}| == |callers| - 1
  {
    assert (callers - {id}).Keys == callers.Keys - {id};
    assert |(callers - {id}).Keys| == |callers - {id}| && |callers.Keys| == |callers|;
  }

  lemma ReleaseKeeps(s: State)
    requires Placed(s) && Fair(s) && (s.queue != [] ==> s.free == 0)
    ensures var t := Release(s);
            && Placed(t) && Fair(t) && (t.queue != [] ==> t.free == 0)
            && t.free + |Unspent(t.callers)| == s.free + |Unspent(s.callers)| + 1
            && |t.callers| == |s.callers| && t.work == s.work && t.slots == s.slots
  {
    if s.queue != [] {
      var id, rest := s.queue[0], s.queue[1..];
      assert id in s.queue;
      Restage(s.callers, id, Granted);
      var t := Release(s);
      HeadAndTail(s.queue);
      assert s.grants + s.queue == t.grants + t.queue;
    }
  }

  lemma HeadAndTail(q: seq<Id>)
    requires Distinct(q) && q != []
    ensures Distinct(q[1..]) && q[0] !in q[1..]
    ensures forall x :: x in q <==> x == q[0] || x in q[1..]
  {
  }

  lemma {:induction false} KeptBut(ids: seq<Id>, gone: set<Id>, id: Id)
    ensures Kept(ids, gone + {id}) == Kept(Kept(ids, gone), {id})
  {
    if ids != [] {
      var front, last := ids[..|ids| - 1], ids[|ids| - 1];
      KeptBut(front, gone, id);
      assert Kept(ids, gone) == if last in gone then Kept(front, gone) else Kept(front, gone) + [last];
      KeptSnoc(Kept(front, gone), last, {id});
    }
  }

  lemma KeptSnoc(ids: seq<Id>, last: Id, gone: set<Id>)
    ensures Kept(ids + [last], gone) == Kept(ids, gone) + if last in gone then [] else [last]
  {
    assert (ids + [last])[..|ids|] == ids;
  }

  lemma {:induction false} KeptAppend(a: seq<Id>, b: seq<Id>, gone: set<Id>)
    ensures Kept(a + b, gone) == Kept(a, gone) + Kept(b, gone)
  {
    if b == [] {
      assert a + b == a;
    } else {
      KeptAppend(a, b[..|b| - 1], gone);
      assert a + b == (a + b[..|b| - 1]) + [b[|b| - 1]];
      KeptSnoc(a + b[..|b| - 1], b[|b| - 1], gone);
    }
  }

  lemma {:induction false} KeptAll(ids: seq<Id>, id: Id)
    requires id !in ids
    ensures Kept(ids, {id}) == ids
  {
    if ids != [] {
      KeptAll(ids[..|ids| - 1], id);
    }
  }

  /** Leaving the queue is dropping out of the arrival order. */
  lemma {:induction false} KeptRemove(q: seq<Id>, id: Id)
    requires Distinct(q)
    ensures Kept(q, {id}) == Remove(q, id)
  {
    if q != [] {
      HeadAndTail(q);
      assert q == [q[0]] + q[1..];
      KeptAppend([q[0]], q[1..], {id});
      assert Kept([q[0]], {id}) == if q[0] == id then [] else [q[0]] by { KeptSnoc([], q[0], {id}); assert [] + [q[0]] == [q[0]]; }
      if q[0] == id {
        KeptAll(q[1..], id);
      } else {
        KeptRemove(q[1..], id);
      }
    }
  }

  lemma CancelInv(s: State, id: Id, permits: nat, cap: nat)
    requires Inv(s, permits, cap) && id in s.callers
    ensures Inv(Abandon(s, id), permits, cap)
  {
    if s.callers[id] == Waiting {
      CancelWaiting(s, id, permits, cap);
    } else {
      DetachedKeeps(s, id);
      hide Placed, Fair, Unspent, Release, Detached;
      if s.callers[id] == Granted {
        ReleaseKeeps(Detached(s, id));
      }
    }
  }

  lemma DetachedKeeps(s: State, id: Id)
    requires Placed(s) && Fair(s) && id in s.callers && s.callers[id] != Waiting
    ensures var dropped := Detached(s, id);
            && Placed(dropped) && Fair(dropped) && |dropped.callers| == |s.callers|
            && |Unspent(dropped.callers)| == |Unspent(s.callers)| - (if s.callers[id] == Granted then 1 else 0)
            && dropped.free == s.free && dropped.work == s.work && dropped.slots == s.slots && dropped.queue == s.queue
  {
    DetachedPlaced(s, id);
    hide Kept, Apart, Distinct, Placed;
    Restage(s.callers, id, Dropped);
    assert Fair(Detached(s, id)) by { hide Unspent; }
  }

  lemma DetachedPlaced(s: State, id: Id)
    requires Placed(s) && id in s.callers && s.callers[id] != Waiting
    ensures Placed(Detached(s, id))
  {
    hide Distinct;
  }

  lemma CancelWaiting(s: State, id: Id, permits: nat, cap: nat)
    requires Inv(s, permits, cap) && id in s.callers && s.callers[id] == Waiting
    ensures Inv(Abandon(s, id), permits, cap)
  {
    LeaveQueue(s, id);
    LeftPlaced(s, id);
    hide Placed, Kept, Remove, Distinct, Apart;
    Restage(s.callers, id, Dropped);
    assert id !in Unspent(s.callers);
    hide Unspent;
  }

  lemma LeftPlaced(s: State, id: Id)
    requires Placed(s) && id in s.callers && s.callers[id] == Waiting
    requires Apart(s.grants, s.queue)
    ensures Placed(Abandon(s, id))
    ensures Apart(s.grants, Remove(s.queue, id)) && |Remove(s.queue, id)| <= |s.queue|
  {
    RemoveExact(s.queue, id);
    hide Remove, Distinct;
  }

  lemma LeaveQueue(s: State, id: Id)
    requires Placed(s) && Fair(s) && id in s.callers && s.callers[id] == Waiting
    ensures Kept(s.arrivals, s.gone + {id}) == s.grants + Remove(s.queue, id)
  {
    assert id in s.queue && id !in s.grants && Distinct(s.queue);
    hide Remove, Kept, Placed, Recorded;
    KeptBut(s.arrivals, s.gone, id);
    KeptAppend(s.grants, s.queue, {id});
    KeptAll(s.grants, id);
    KeptRemove(s.queue, id);
  }

  lemma EnterInv(s: State, id: Id, permits: nat, cap: nat)
    requires Inv(s, permits, cap) && id in s.callers && s.callers[id] == Admitted
    ensures Inv(Next(s, Enter(id)), permits, cap)
  {
    hide Kept, Recorded, Apart;
    var t := Next(s, Enter(id));
    EnterFair(s, id, permits, cap);
    hide Fair;
    Restage(s.callers, id, t.callers[id]);
    assert Placed(t) by { hide Counted, Unspent; assert id !in s.queue && id !in s.work; }
    assert Counted(t, permits, cap) by { hide Placed; }
  }

  lemma EnterFair(s: State, id: Id, permits: nat, cap: nat)
    requires Inv(s, permits, cap) && id in s.callers && s.callers[id] == Admitted
    ensures Fair(Next(s, Enter(id)))
  {
    hide Unspent, Placed, Counted;
    var t := Next(s, Enter(id));
    KeptSnoc(s.arrivals, id, s.gone);
    KeptIn(s.arrivals, s.gone, id);
    assert id !in s.grants + s.queue && id !in s.gone;
    if s.free > 0 {
      QueueEmpty(s, permits, cap);
    }
    assert t.grants + t.queue == s.grants + s.queue + [id];
    assert id !in s.grants && Apart(t.grants, t.queue);
    EnterRecorded(s, id);
  }

  lemma QueueEmpty(s: State, permits: nat, cap: nat)
    requires Counted(s, permits, cap) && s.free > 0
    ensures s.queue == []
  {
  }

  lemma EnterRecorded(s: State, id: Id)
    requires Placed(s) && Recorded(s) && Distinct(s.arrivals) && id in s.callers && s.callers[id] == Admitted
    ensures Recorded(Next(s, Enter(id))) && Distinct(Next(s, Enter(id)).arrivals)
  {
    assert id in s.seen && id !in s.arrivals;
    forall x
      ensures x in s.arrivals + [id] <==> x in s.arrivals || x == id
    {
    }
  }

  lemma {:induction false} KeptIn(ids: seq<Id>, gone: set<Id>, id: Id)
    ensures id in Kept(ids, gone) <==> id in ids && id !in gone
  {
    if ids != [] {
      KeptIn(ids[..|ids| - 1], gone, id);
      assert id in ids <==> id in ids[..|ids| - 1] || id == ids[|ids| - 1];
    }
  }

  lemma EndInv(s: State, id: Id, panicked: bool, permits: nat, cap: nat)
    requires Inv(s, permits, cap) && id in s.work
    ensures Inv(Next(s, End(id, panicked)), permits, cap)
  {
    EndedPlaced(s, id, panicked);
    EndedFair(s, id, panicked);
    EndedCounts(s, id, panicked);
    hide Placed, Fair, Unspent, Release, Ended;
    ReleaseKeeps(Ended(s, id, panicked));
  }

  lemma EndedPlaced(s: State, id: Id, panicked: bool)
    requires Placed(s) && id in s.work
    ensures Placed(Ended(s, id, panicked))
  {
  }

  lemma EndedFair(s: State, id: Id, panicked: bool)
    requires Fair(s)
    ensures Fair(Ended(s, id, panicked))
  {
    hide Kept, Apart, Distinct;
  }

  lemma EndedCounts(s: State, id: Id, panicked: bool)
    requires id in s.work
    ensures var ended := Ended(s, id, panicked);
            && |Unspent(ended.callers)| == |Unspent(s.callers)| && |ended.callers| == |s.callers|
            && |ended.work| == |s.work| - 1
            && ended.free == s.free && ended.slots == s.slots && ended.queue == s.queue
  {
    SetCount(s.work, id);
    Restage(s.callers, id, Finished(panicked));
  }

  lemma ArriveInv(s: State, id: Id, permits: nat, cap: nat)
    requires Inv(s, permits, cap)
    ensures Inv(Next(s, Arrive(id)), permits, cap)
  {
    hide Kept, Remove;
    Restage(s.callers, id, Admitted);
    var t := Next(s, Arrive(id));
    assert Placed(t) by { hide Fair, Counted, Unspent; }
    assert Fair(t) by { hide Counted, Unspent; }
    assert Counted(t, permits, cap) by { hide Fair; }
  }

  lemma SpawnInv(s: State, id: Id, permits: nat, cap: nat)
    requires Inv(s, permits, cap) && id in s.callers && s.callers[id] == Granted
    ensures Inv(Next(s, Spawn(id)), permits, cap)
  {
    Restage(s.callers, id, Running);
    assert id !in s.work;
  }

  lemma ExitInv(s: State, id: Id, permits: nat, cap: nat)
    requires Inv(s, permits, cap) && id in s.callers && MayExit(s.callers[id])
    ensures Inv(Next(s, Exit(id)), permits, cap)
  {
    Unstage(s.callers, id);
  }

  lemma NextInv(s: State, a: Action, permits: nat, cap: nat)
    requires Inv(s, permits, cap)
    ensures Inv(Next(s, a), permits, cap)
  {
    match a
    case Arrive(id) => ArriveInv(s, id, permits, cap);
    case Enter(id) => if id in s.callers && s.callers[id] == Admitted { EnterInv(s, id, permits, cap); }
    case Spawn(id) => if id in s.callers && s.callers[id] == Granted { SpawnInv(s, id, permits, cap); }
    case End(id, panicked) => if id in s.work { EndInv(s, id, panicked, permits, cap); }
    case Cancel(id) => if id in s.callers && s.callers[id] != Dropped { CancelInv(s, id, permits, cap); }
    case Exit(id) => if id in s.callers && MayExit(s.callers[id]) { ExitInv(s, id, permits, cap); }
  }

  lemma {:induction false} RunInv(s: State, actions: seq<Action>, permits: nat, cap: nat)
    requires Inv(s, permits, cap)
    ensures Inv(Run(s, actions), permits, cap)
    decreases |actions|
  {
    if actions != [] {
      NextInv(s, actions[0], permits, cap);
      RunInv(Next(s, actions[0]), actions[1..], permits, cap);
    }
  }

  // ----- What holds in every run ----------------------------------------------------------

  ghost predicate Reachable(decrypt: nat, admit: nat, s: State)
  {
    exists actions :: s == Run(Initial(decrypt, admit), actions)
  }

  lemma ReachableInv(decrypt: nat, admit: nat, s: State)
    requires Reachable(decrypt, admit, s)
    ensures Inv(s, AtLeastOne(decrypt), AtLeastOne(admit))
  {
    var actions :| s == Run(Initial(decrypt, admit), actions);
    InitialInv(decrypt, admit);
    RunInv(Initial(decrypt, admit), actions, AtLeastOne(decrypt), AtLeastOne(admit));
  }

  /** In every interleaving, with cancellation and panics: free, assigned and
      working permits add up; no more than the configured number of closures
      exist; no more than the cap of requests are inside; nobody waits while a
      permit is free; a request is shed exactly at the cap; and once every
      request and every closure is gone, every permit and slot is free. */
  lemma PermitConservation(decrypt: nat, admit: nat, s: State)
    requires Reachable(decrypt, admit, s)
    ensures s.free + |Unspent(s.callers)| + |s.work| == AtLeastOne(decrypt)
    ensures s.slots + |s.callers| == AtLeastOne(admit)
    ensures s.queue != [] ==> s.free == 0
    ensures forall id :: id !in s.seen ==> (id in Next(s, Arrive(id)).callers <==> |s.callers| < AtLeastOne(admit))
    ensures |s.callers| == 0 && s.work == {} ==>
              s.free == AtLeastOne(decrypt) && s.slots == AtLeastOne(admit) && s.queue == []
  {
    ReachableInv(decrypt, admit, s);
    HeadWaits(s);
    if |s.callers| == 0 {
      assert s.callers == map[];
      assert Unspent(s.callers) == {};
    }
  }

  lemma HeadWaits(s: State)
    requires Placed(s)
    ensures s.queue != [] ==> s.queue[0] in s.callers && s.callers[s.queue[0]] == Waiting
  {
    assert s.queue != [] ==> s.queue[0] in s.queue;
  }

  /** A closure keeps its permit until it ends: whatever else happens, the
      cancellation of its own caller included, it stays on the pool and counts
      against the permits. */
  lemma {:induction false} WorkOutlivesCaller(s: State, actions: seq<Action>, id: Id, permits: nat, cap: nat)
    requires Inv(s, permits, cap) && id in s.work
    requires forall i :: 0 <= i < |actions| ==> !(actions[i].End? && actions[i].id == id)
    ensures id in Run(s, actions).work
    ensures Run(s, actions).free + |Run(s, actions).work - {id}| < permits
    decreases |actions|
  {
    if actions == [] {
      SetCount(s.work, id);
    } else {
      NextInv(s, actions[0], permits, cap);
      StaysAtWork(s, actions[0], id);
      hide Inv, Next;
      WorkOutlivesCaller(Next(s, actions[0]), actions[1..], id, permits, cap);
    }
  }

  lemma StaysAtWork(s: State, a: Action, id: Id)
    requires id in s.work && !(a.End? && a.id == id)
    ensures id in Next(s, a).work
  {
  }

  /** Ending a closure frees exactly one permit, by a return and by a panic
      alike, and the panic is what its caller is told. */
  lemma EndFreesOne(s: State, id: Id, panicked: bool, permits: nat, cap: nat)
    requires Inv(s, permits, cap) && id in s.work
    ensures var t := Next(s, End(id, panicked));
            && t.work == s.work - {id}
            && t.free + |Unspent(t.callers)| == s.free + |Unspent(s.callers)| + 1
            && (id in t.callers ==> t.callers[id] in {Finished(panicked), Dropped})
            && t.(callers := map[]) == Next(s, End(id, !panicked)).(callers := map[])
  {
    EndedPlaced(s, id, panicked);
    EndedFair(s, id, panicked);
    EndedCounts(s, id, panicked);
    HeadWaits(s);
    ReleaseTells(s, id, panicked);
    assert Next(s, End(id, panicked)).work == s.work - {id};
    hide Placed, Fair, Unspent, Release, Ended;
    ReleaseKeeps(Ended(s, id, panicked));
  }

  lemma ReleaseTells(s: State, id: Id, panicked: bool)
    requires Placed(s) && id in s.work
    ensures var t := Release(Ended(s, id, panicked));
            && (id in t.callers ==> t.callers[id] in {Finished(panicked), Dropped})
            && t.(callers := map[]) == Release(Ended(s, id, !panicked)).(callers := map[])
  {
    assert id !in s.queue;
    HeadWaits(s);
    hide Distinct;
  }

  /** Permits are assigned in the order of arrival: somebody who was assigned
      one came after nobody who is still waiting. */
  lemma NoOvertaking(decrypt: nat, admit: nat, s: State, first: nat, second: nat)
    requires Reachable(decrypt, admit, s)
    requires first < second < |s.arrivals| && s.arrivals[first] !in s.gone
    requires s.arrivals[second] in s.grants
    ensures s.arrivals[first] in s.grants
  {
    ReachableInv(decrypt, admit, s);
    assert Kept(s.arrivals, s.gone)[..|s.grants|] == s.grants;
    KeptOrder(s.arrivals, s.gone, first, second, |s.grants|);
  }

  /** Keeping a subsequence keeps the order: if the later one lies in the first n
      kept, so does the earlier one. */
  lemma {:induction false} KeptOrder(ids: seq<Id>, gone: set<Id>, first: nat, second: nat, n: nat)
    requires first < second < |ids| && Distinct(ids) && ids[first] !in gone
    requires n <= |Kept(ids, gone)| && ids[second] in Kept(ids, gone)[..n]
    ensures ids[first] in Kept(ids, gone)[..n]
  {
    var head := ids[..second];
    assert ids == head + ids[second..];
    KeptAppend(head, ids[second..], gone);
    KeptIn(head, gone, ids[first]);
    KeptIn(head, gone, ids[second]);
    assert head[first] == ids[first];
    assert ids[second] !in head by { hide Kept; }
    PrefixCovers(Kept(head, gone), Kept(ids[second..], gone), n, ids[second], ids[first]);
  }

  lemma PrefixCovers(a: seq<Id>, b: seq<Id>, n: nat, x: Id, y: Id)
    requires n <= |a + b| && x in (a + b)[..n] && x !in a && y in a
    ensures y in (a + b)[..n]
  {
    var p :| 0 <= p < n && (a + b)[p] == x;
    assert forall i :: 0 <= i < |a| ==> (a + b)[i] == a[i] && a[i] != x;
    assert p >= |a|;
    var q :| 0 <= q < |a| && a[q] == y;
    assert (a + b)[..n][q] == y;
  }

  // ----- Nobody is refused at the gate -------------------------------------------------------

  /** Spawns and ends of other requests' work, panicking where `panics` says. */
  predicate OnlyDrains(actions: seq<Action>, id: Id, panics: set<Id>)
  {
    forall i :: 0 <= i < |actions| ==> DrainOf(actions[i], panics) && actions[i].id != id
  }

  predicate DrainOf(a: Action, panics: set<Id>)
  {
    a.Spawn? || (a.End? && a.panicked == (a.id in panics))
  }

  /** However long the queue, the work of others ending is enough for a waiter to
      be assigned a permit: it never has to be refused. */
  lemma {:induction false} WaiterIsServed(s: State, id: Id, panics: set<Id>, permits: nat, cap: nat)
    returns (actions: seq<Action>)
    requires Inv(s, permits, cap) && permits > 0 && id in s.callers && s.callers[id] == Waiting
    ensures OnlyDrains(actions, id, panics)
    ensures id in Run(s, actions).callers && Run(s, actions).callers[id] == Granted
    decreases |s.queue|
  {
    assert id in s.queue;
    var step, t := DrainOne(s, panics, permits, cap);
    assert forall i :: 0 <= i < |step| ==> step[i].id != id;
    if s.queue[0] == id {
      return step;
    }
    assert id in t.queue by { HeadAndTail(s.queue); }
    var rest := WaiterIsServed(t, id, panics, permits, cap);
    RunAppend(s, step, rest);
    actions := step + rest;
  }

  /** With somebody waiting, some permit is assigned or at work, and one or two
      steps pass it to the head of the queue. */
  lemma DrainOne(s: State, panics: set<Id>, permits: nat, cap: nat) returns (step: seq<Action>, t: State)
    requires Inv(s, permits, cap) && permits > 0 && s.queue != []
    ensures t == Run(s, step) && Inv(t, permits, cap)
    ensures t.queue == s.queue[1..] && s.queue[0] in t.callers && t.callers[s.queue[0]] == Granted
    ensures forall i :: 0 <= i < |step| ==> DrainOf(step[i], panics) && step[i].id !in s.queue
  {
    hide Placed, Fair, Next, Release;
    if h: Id :| h in s.work {
      t := EndPasses(s, h, h in panics, permits, cap);
      step := [End(h, h in panics)];
      RunOne(s, End(h, h in panics));
    } else {
      assert |Unspent(s.callers)| > 0;
      var h :| h in Unspent(s.callers);
      t := SpawnPasses(s, h, h in panics, permits, cap);
      step := [Spawn(h), End(h, h in panics)];
      RunOne(Next(s, Spawn(h)), End(h, h in panics));
      assert step[1..] == [End(h, h in panics)];
    }
  }

  lemma RunOne(s: State, a: Action)
    ensures Run(s, [a]) == Next(s, a)
  {
    assert Run(Next(s, a), [a][1..]) == Next(s, a);
  }

  lemma SpawnPasses(s: State, h: Id, panicked: bool, permits: nat, cap: nat) returns (t: State)
    requires Inv(s, permits, cap) && h in Unspent(s.callers) && s.queue != []
    ensures t == Next(Next(s, Spawn(h)), End(h, panicked)) && Inv(t, permits, cap)
    ensures t.queue == s.queue[1..] && s.queue[0] in t.callers && t.callers[s.queue[0]] == Granted
    ensures h !in s.queue
  {
    var spawned := Next(s, Spawn(h));
    SpawnInv(s, h, permits, cap);
    t := EndPasses(spawned, h, panicked, permits, cap);
  }

  /** A closure that ends hands its permit to the head of the queue. */
  lemma EndPasses(s: State, h: Id, panicked: bool, permits: nat, cap: nat) returns (t: State)
    requires Inv(s, permits, cap) && h in s.work && s.queue != []
    ensures t == Next(s, End(h, panicked)) && Inv(t, permits, cap)
    ensures t.queue == s.queue[1..] && s.queue[0] in t.callers && t.callers[s.queue[0]] == Granted
    ensures h !in s.queue
  {
    t := Next(s, End(h, panicked));
    EndInv(s, h, panicked, permits, cap);
    assert s.queue[0] in s.queue;
  }

  lemma {:induction false} RunAppend(s: State, a: seq<Action>, b: seq<Action>)
    ensures Run(s, a + b) == Run(Run(s, a), b)
    decreases |a|
  {
    if a == [] {
      assert a + b == b;
    } else {
      assert (a + b)[1..] == a[1..] + b;
      RunAppend(Next(s, a[0]), a[1..], b);
    }
  }

  /** What a step of one request does to the others: a waiter may be granted. */
  lemma OthersStay(s: State, a: Action, id: Id)
    requires Placed(s) && a.id != id
    ensures var t := Next(s, a);
            && (id in t.callers <==> id in s.callers)
            && (id in s.callers ==> t.callers[id] == s.callers[id] || (s.callers[id] == Waiting && t.callers[id] == Granted))
            && t.seen == s.seen + if a.Arrive? then {a.id} else {}
  {
    HeadWaits(s);
  }

  lemma {:induction false} OthersStayRun(s: State, actions: seq<Action>, own: Id, id: Id, permits: nat, cap: nat)
    requires Inv(s, permits, cap) && own != id && forall i :: 0 <= i < |actions| ==> actions[i].id == own
    ensures var t := Run(s, actions);
            && (id in t.callers <==> id in s.callers)
            && (id in s.callers ==> t.callers[id] == s.callers[id] || (s.callers[id] == Waiting && t.callers[id] == Granted))
    decreases |actions|
  {
    if actions != [] {
      OthersStay(s, actions[0], id);
      NextInv(s, actions[0], permits, cap);
      hide *;
      OthersStayRun(Next(s, actions[0]), actions[1..], own, id, permits, cap);
    }
  }

  /** What a step does to its own request. */
  lemma OwnStays(s: State, a: Action)
    requires Placed(s)
    ensures var t := Next(s, a);
            if a.id !in s.callers then a.id in t.callers ==> a.Arrive? && t.callers[a.id] == Admitted && a.id !in s.seen
            else
              var before := s.callers[a.id];
              if a.Exit? && before in {Admitted, Finished(false), Finished(true), Dropped} then a.id !in t.callers
              else
                a.id in t.callers &&
                match a
                case Arrive(_) => a.id !in s.seen || t.callers[a.id] == before
                case Enter(_) => if before == Admitted then t.callers[a.id] in {Waiting, Granted} else t.callers[a.id] == before
                case Spawn(_) => t.callers[a.id] == if before == Granted then Running else before
                case End(_, panicked) => t.callers[a.id] == if before == Running then Finished(panicked) else before
                case Cancel(_) => t.callers[a.id] == Dropped
                case Exit(_) => t.callers[a.id] == before
  {
    HeadWaits(s);
    hide Distinct;
  }

  /** A cancelled request that leaves is gone. */
  lemma CancelledLeaves(s: State, id: Id, permits: nat, cap: nat)
    requires Inv(s, permits, cap)
    ensures id !in Run(s, [Cancel(id), Exit(id)]).callers
    ensures Run(s, [Cancel(id), Exit(id)]).seen == s.seen
  {
    var t := Next(s, Cancel(id));
    NextInv(s, Cancel(id), permits, cap);
    OwnStays(s, Cancel(id));
    OwnStays(t, Exit(id));
    RunOne(t, Exit(id));
    assert [Cancel(id), Exit(id)][1..] == [Exit(id)];
    SeenStays(s, Cancel(id));
    SeenStays(t, Exit(id));
  }

  lemma SeenStays(s: State, a: Action)
    ensures Next(s, a).seen == s.seen + if a.Arrive? then {a.id} else {}
  {
  }

  // ----- And everybody is served in turn ----------------------------------------------------

  function Position(q: seq<Id>, id: Id): (p: nat)
    requires id in q
    ensures p < |q| && q[p] == id
  {
    if q[0] == id then 0 else 1 + Position(q[1..], id)
  }

  lemma {:induction false} PositionAt(q: seq<Id>, id: Id, p: nat)
    requires Distinct(q) && p < |q| && q[p] == id
    ensures Position(q, id) == p
  {
    var found := Position(q, id);
    assert q[found] == q[p];
  }

  /** Steps that give a permit back. */
  predicate Releases(s: State, a: Action)
  {
    (a.End? && a.id in s.work) || (a.Cancel? && a.id in s.callers && s.callers[a.id] == Granted)
  }

  /** How often a run gives a permit back. */
  function Released(s: State, actions: seq<Action>): (n: nat)
    decreases |actions|
  {
    if actions == [] then 0
    else (if Releases(s, actions[0]) then 1 else 0) + Released(Next(s, actions[0]), actions[1..])
  }

  lemma {:induction false} RemovePosition(q: seq<Id>, other: Id, id: Id)
    requires Distinct(q) && id in q && id != other
    ensures id in Remove(q, other) && Position(Remove(q, other), id) <= Position(q, id)
  {
    RemoveExact(q, other);
    if q[0] != other && q[0] != id {
      HeadAndTail(q);
      RemovePosition(q[1..], other, id);
      assert ([q[0]] + Remove(q[1..], other))[1..] == Remove(q[1..], other);
    } else if q[0] == other {
      assert q[1..] == Remove(q, other);
    }
  }

  /** A waiter that does not give up moves to the front by every release, and is
      never moved back. */
  lemma StepPosition(s: State, a: Action, id: Id, permits: nat, cap: nat)
    requires Inv(s, permits, cap) && id in s.queue && a != Cancel(id)
    ensures id in Next(s, a).grants
         || (id in Next(s, a).queue
             && Position(Next(s, a).queue, id) + (if Releases(s, a) then 1 else 0) <= Position(s.queue, id))
  {
    NextInv(s, a, permits, cap);
    StepQueue(s, a);
    assert Distinct(s.queue) && Distinct(Next(s, a).queue) by { hide Next; }
    hide Inv, Next, Releases;
    ShiftedPosition(s.queue, Next(s, a).queue, id);
    if s.queue[0] != id && Releases(s, a) {
      assert Position(s.queue, id) > 0;
    }
    if a.Cancel? && Next(s, a).queue == Remove(s.queue, a.id) && a.id != id {
      RemovePosition(s.queue, a.id, id);
    }
  }

  /** What a step does to the queue. */
  lemma StepQueue(s: State, a: Action)
    ensures var t := Next(s, a);
            if Releases(s, a) && s.queue != [] then t.queue == s.queue[1..] && t.grants == s.grants + [s.queue[0]]
            else s.queue <= t.queue || (a.Cancel? && t.queue == Remove(s.queue, a.id))
  {
  }

  /** Positions after the queue lost its head, or grew at the back. */
  lemma ShiftedPosition(q: seq<Id>, q': seq<Id>, id: Id)
    requires Distinct(q) && Distinct(q') && id in q
    ensures q' == q[1..] && q[0] != id ==> id in q' && Position(q', id) + 1 == Position(q, id)
    ensures q <= q' ==> id in q' && Position(q', id) == Position(q, id)
  {
    var p := Position(q, id);
    if q <= q' {
      assert q'[p] == id;
      PositionAt(q', id, p);
    }
  }

  lemma GrantsGrow(s: State, a: Action)
    ensures s.grants <= Next(s, a).grants
  {
  }

  lemma {:induction false} GrantedStays(s: State, actions: seq<Action>, id: Id)
    requires id in s.grants
    ensures id in Run(s, actions).grants
    decreases |actions|
  {
    if actions != [] {
      GrantsGrow(s, actions[0]);
      GrantedStays(Next(s, actions[0]), actions[1..], id);
    }
  }

  /** In every run that does not cancel a waiter: once permits have been given
      back more often than there were waiters before it, it has been assigned
      one, and waits no longer. */
  lemma {:induction false} ServedInTurn(s: State, actions: seq<Action>, id: Id, permits: nat, cap: nat)
    requires Inv(s, permits, cap) && id in s.queue && Cancel(id) !in actions
    requires Released(s, actions) > Position(s.queue, id)
    ensures id in Run(s, actions).grants && id !in Run(s, actions).queue
    decreases |actions|
  {
    var a, t := actions[0], Next(s, actions[0]);
    NextInv(s, a, permits, cap);
    StepPosition(s, a, id, permits, cap);
    hide Next;
    if id in t.grants {
      GrantedStays(t, actions[1..], id);
      RunInv(t, actions[1..], permits, cap);
    } else {
      ServedInTurn(t, actions[1..], id, permits, cap);
    }
  }
}
