/** Interleaved requests over one commitment cache and one registry
    (src/commitment.rs, src/http.rs). Reading the registry and writing the cache
    are separate steps; the registry is write-once, and may be wiped. */
module CommitmentRuns {
  import opened Options
  import opened Lru
  import opened Commitment

  /** What one request saw of the cache and the registry, in order. */
  datatype Event = FromCache(hash: Hash, age: nat) | FromRegistry(answer: Answer)

  datatype Phase =
    | Start
    | Reading                                   // registry call of fetch_commitment in flight
    | Answered(answer: Answer)                  // answered, cache not yet reconciled
    | Gated(fetched: Fetched)                   // past the first gate, fetching the ciphertext
    | Rereading(cached: Hash)                   // registry call of the integrity check in flight
    | Reanswered(cached: Hash, answer: Answer)
    | Done(verdict: Verdict)

  /** `actual` is the hash of the bytes the ciphertext server serves; `log` and
      `truth` record what happened and decide nothing. `truth` is the registry's
      own answer when this request was served, from cache or from the registry. */
  datatype Request = Request(key: Key, actual: Hash, phase: Phase, log: seq<Event>, truth: Hash)

  datatype Config = Config(cap: nat, ttl: nat, warnOnly: bool)

  datatype World = World(registry: map<nat, Hash>, cache: Cache, now: nat, requests: map<nat, Request>)

  datatype Action =
    | Tick(dt: nat)
    | Post(handle: nat, commit: Hash)
    | Wipe
    | Begin(id: nat, key: Key, actual: Hash)
    | Lookup(id: nat)
    | Reply(id: nat, failure: Option<bool>)     // the in-flight call ends: it read the chain, or failed
    | Reconcile(id: nat)
    | Check(id: nat)

  function OnChain(registry: map<nat, Hash>, key: Key): (r: Hash)
  {
    if key.handle in registry then registry[key.handle] else 0
  }

  function ReplyOf(w: World, key: Key, failure: Option<bool>): (r: Answer)
  {
    match failure
    case None => Hashed(OnChain(w.registry, key))
    case Some(timedOut) => Failed(timedOut)
  }

  function Gate(r: Result<Fetched, CommitmentError>, warnOnly: bool): (out: Phase)
  {
    match EnforceCommitment(r, warnOnly)
    case Success(Some(fetched)) => Gated(fetched)
    case Success(None) => Done(Unchecked)
    case Failure(refusal) => Done(refusal)
  }

  /** The step of one request, as the new cache and the new request. */
  function StepRequest(c: Config, w: World, r: Request, a: Action): (out: (Cache, Request))
  {
    match (a, r.phase)
    case (Lookup(_), Start) =>
      var hit := LookupHit(w.cache, r.key, w.now, c.ttl);
      var cache := Looked(w.cache, r.key, w.now, c.ttl, c.cap);
      if hit.Some? then
        var stored := Peek(w.cache, r.key).value.storedAt;
        var age := if w.now >= stored then w.now - stored else 0;
        (cache, r.(phase := Gate(Success(Fetched(hit.value, true)), c.warnOnly),
                   log := r.log + [FromCache(hit.value, age)], truth := OnChain(w.registry, r.key)))
      else
        (cache, r.(phase := Reading))
    case (Reply(_, failure), Reading) =>
      var answer := ReplyOf(w, r.key, failure);
      (w.cache, r.(phase := Answered(answer), log := r.log + [FromRegistry(answer)],
                   truth := OnChain(w.registry, r.key)))
    case (Reconcile(_), Answered(answer)) =>
      (Reconciled(w.cache, r.key, answer, w.now, c.cap), r.(phase := Gate(FetchResult(answer), c.warnOnly)))
    case (Check(_), Gated(fetched)) =>
      if NeedsReread(fetched, r.actual) then (w.cache, r.(phase := Rereading(fetched.hash)))
      else (w.cache, r.(phase := Done(EnforceIntegrity(fetched, r.actual, Failure(Transport), c.warnOnly))))
    case (Reply(_, failure), Rereading(cached)) =>
      var answer := ReplyOf(w, r.key, failure);
      (w.cache, r.(phase := Reanswered(cached, answer), log := r.log + [FromRegistry(answer)]))
    case (Reconcile(_), Reanswered(cached, answer)) =>
      (Reconciled(w.cache, r.key, answer, w.now, c.cap),
       r.(phase := Done(EnforceIntegrity(Fetched(cached, true), r.actual, RefreshResult(answer), c.warnOnly))))
    case _ => (w.cache, r)
  }

  /** One step of the system; a step that is not possible changes nothing. */
  function Next(c: Config, w: World, a: Action): (r: World)
  {
    match a
    case Tick(dt) => w.(now := w.now + dt)
    case Post(handle, commit) =>
      if handle in w.registry || commit == 0 then w else w.(registry := w.registry[handle := commit])
    case Wipe => w.(registry := map[])
    case Begin(id, key, actual) =>
      if id in w.requests then w
      else w.(requests := w.requests[id := Request(key, actual, Start, [], 0)])
    case _ =>
      if a.id in w.requests then
        var (cache, r) := StepRequest(c, w, w.requests[a.id], a);
        w.(cache := cache, requests := w.requests[a.id := r])
      else w
  }

  function Run(c: Config, w: World, actions: seq<Action>): (r: World)
    decreases |actions|
  {
    if actions == [] then w else Run(c, Next(c, w, actions[0]), actions[1..])
  }

  const Initial: World := World(map[], [], 0, map[])

  // ----- What holds in every run, wipes and failures included ------------------------

  /** The verdict a log decides: the newest registry answer of this request, and
      the cached hash only when there is none, or when the re-read failed. */
  function Judge(log: seq<Event>, actual: Hash, warnOnly: bool): (r: Verdict)
    requires log != []
  {
    match log[|log| - 1]
    case FromRegistry(Hashed(h)) =>
      if h == 0 then if warnOnly then Unchecked else Pending
      else if h == actual then Pass
      else if warnOnly then Unchecked else Mismatch
    case FromRegistry(Failed(timedOut)) =>
      if warnOnly then Unchecked
      else if |log| > 1 then Mismatch
      else if timedOut then VerifierTimeout else VerifierError
    case FromCache(h, _) => if h == actual then Pass else if warnOnly then Unchecked else Mismatch
  }

  ghost predicate CacheEvent(e: Event, hash: Hash, ttl: nat)
  {
    e.FromCache? && e.hash == hash && hash != 0 && e.age < ttl
  }

  /** The phase and the log of a request agree. */
  ghost predicate LogFits(r: Request, ttl: nat, warnOnly: bool)
  {
    match r.phase
    case Start | Reading => r.log == []
    case Answered(answer) => r.log == [FromRegistry(answer)]
    case Gated(fetched) =>
      |r.log| == 1 && fetched.hash != 0 &&
      if fetched.fromCache then CacheEvent(r.log[0], fetched.hash, ttl)
      else r.log[0] == FromRegistry(Hashed(fetched.hash))
    case Rereading(cached) => |r.log| == 1 && CacheEvent(r.log[0], cached, ttl) && cached != r.actual
    case Reanswered(cached, answer) =>
      |r.log| == 2 && CacheEvent(r.log[0], cached, ttl) && cached != r.actual && r.log[1] == FromRegistry(answer)
    case Done(verdict) =>
      && 1 <= |r.log| <= 2 && verdict == Judge(r.log, r.actual, warnOnly)
      && (|r.log| == 2 ==> r.log[1].FromRegistry? && r.log[0].FromCache? && CacheEvent(r.log[0], r.log[0].hash, ttl) && r.log[0].hash != r.actual)
      && (|r.log| == 1 && r.log[0].FromCache? ==> CacheEvent(r.log[0], r.actual, ttl))
  }

  /** The cache is a valid LRU of non-zero hashes stored no later than now. */
  ghost predicate CacheSound(c: Config, w: World)
  {
    && Valid(w.cache, c.cap)
    && forall k :: Peek(w.cache, k).Some? ==>
         Peek(w.cache, k).value.commit != 0 && Peek(w.cache, k).value.storedAt <= w.now
  }

  ghost predicate Inv(c: Config, w: World)
  {
    && c.cap > 0
    && CacheSound(c, w)
    && forall id :: id in w.requests ==> LogFits(w.requests[id], c.ttl, c.warnOnly)
  }

  lemma ReconciledPeek(cache: Cache, key: Key, answer: Answer, now: nat, cap: nat, k: Key)
    ensures var after := Peek(Reconciled(cache, key, answer, now, cap), k);
            || after == None
            || (after == Peek(cache, k) && (k == key ==> answer.Failed?))
            || (k == key && answer.Hashed? && answer.hash != 0 && after == Some(Entry(answer.hash, now)))
  {
    if answer.Hashed? && answer.hash != 0 {
      StoredPeek(cache, key, Entry(answer.hash, now), cap, k);
    } else if answer.Hashed? {
      WithoutPeek(cache, key, k);
    }
  }

  /** A request step changes the cache only by a lookup or by storing or
      dropping the key it asked the registry for. */
  lemma StepCache(c: Config, w: World, r: Request, a: Action)
    requires c.cap > 0 && CacheSound(c, w)
    ensures CacheSound(c, w.(cache := StepRequest(c, w, r, a).0))
    ensures forall k ::
      var after := Peek(StepRequest(c, w, r, a).0, k);
      || after == None
      || after == Peek(w.cache, k)
      || (k == r.key && a.Reconcile? && exists answer: Answer {:trigger answer.Hashed?} ::
            && (r.phase == Answered(answer) || (r.phase.Reanswered? && r.phase.answer == answer))
            && answer.Hashed? && answer.hash != 0 && after == Some(Entry(answer.hash, w.now)))
  {
    LookedKeeps(w.cache, r.key, w.now, c.ttl, c.cap);
    if a.Reconcile? && (r.phase.Answered? || r.phase.Reanswered?) {
      var answer := r.phase.answer;
      ReconciledValid(w.cache, r.key, answer, w.now, c.cap);
      forall k
        ensures var after := Peek(Reconciled(w.cache, r.key, answer, w.now, c.cap), k);
          after == None || after == Peek(w.cache, k)
          || (k == r.key && answer.Hashed? && answer.hash != 0 && after == Some(Entry(answer.hash, w.now)))
      {
        ReconciledPeek(w.cache, r.key, answer, w.now, c.cap, k);
      }
    }
  }

  lemma StepLog(c: Config, w: World, r: Request, a: Action)
    requires CacheSound(c, w) && LogFits(r, c.ttl, c.warnOnly)
    ensures LogFits(StepRequest(c, w, r, a).1, c.ttl, c.warnOnly)
  {
  }

  lemma NextInv(c: Config, w: World, a: Action)
    requires Inv(c, w)
    ensures Inv(c, Next(c, w, a))
  {
    if !a.Tick? && !a.Post? && !a.Wipe? && !a.Begin? && a.id in w.requests {
      StepCache(c, w, w.requests[a.id], a);
      StepLog(c, w, w.requests[a.id], a);
    }
  }

  lemma {:induction false} RunInv(c: Config, w: World, actions: seq<Action>)
    requires Inv(c, w)
    ensures Inv(c, Run(c, w, actions))
    decreases |actions|
  {
    if actions != [] {
      NextInv(c, w, actions[0]);
      RunInv(c, Next(c, w, actions[0]), actions[1..]);
    }
  }

  ghost predicate Reachable(c: Config, w: World)
  {
    exists actions :: w == Run(c, Initial, actions)
  }

  lemma ReachableInv(c: Config, w: World)
    requires c.cap > 0 && Reachable(c, w)
    ensures Inv(c, w)
  {
    var actions :| w == Run(c, Initial, actions);
    RunInv(c, Initial, actions);
  }

  /** The refusal on a failed re-read is real: wherever the cache holds a hash the
      registry has since replaced, a request whose bytes match the registry right
      now is refused if its re-read fails. */
  lemma RefusedThoughChainAgrees(c: Config, w: World, id: nat, key: Key, timedOut: bool)
    requires !c.warnOnly && id !in w.requests
    requires LookupHit(w.cache, key, w.now, c.ttl).Some?
    requires LookupHit(w.cache, key, w.now, c.ttl).value != OnChain(w.registry, key)
    ensures var actions := [Begin(id, key, OnChain(w.registry, key)), Lookup(id), Check(id), Reply(id, Some(timedOut)), Reconcile(id)];
            var w' := Run(c, w, actions);
            && id in w'.requests && w'.requests[id].phase == Done(Mismatch)
            && w'.requests[id].key == key && w'.registry == w.registry
            && w'.requests[id].actual == OnChain(w'.registry, key)
  {
    hide Looked, LookupHit, OnChain, Reconciled, Run;
    var actual := OnChain(w.registry, key);
    var begun := Next(c, w, Begin(id, key, actual));
    var gated := Next(c, begun, Lookup(id));
    assert gated.requests[id].phase == Gated(Fetched(LookupHit(w.cache, key, w.now, c.ttl).value, true));
    assert gated.requests[id].key == key && gated.requests[id].actual == actual && gated.registry == w.registry;
    hide Next;
    var rest := [Check(id), Reply(id, Some(timedOut)), Reconcile(id)];
    RefusedOnFailedReread(c, gated, id, timedOut);
    RunCons(c, w, Begin(id, key, actual), [Lookup(id)] + rest);
    RunCons(c, begun, Lookup(id), rest);
    assert [Begin(id, key, actual), Lookup(id), Check(id), Reply(id, Some(timedOut)), Reconcile(id)]
        == [Begin(id, key, actual)] + ([Lookup(id)] + rest);
  }

  lemma RefusedOnFailedReread(c: Config, w: World, id: nat, timedOut: bool)
    requires !c.warnOnly && id in w.requests && w.requests[id].phase.Gated?
    requires NeedsReread(w.requests[id].phase.fetched, w.requests[id].actual)
    ensures var w' := Run(c, w, [Check(id), Reply(id, Some(timedOut)), Reconcile(id)]);
            && id in w'.requests && w'.requests[id].phase == Done(Mismatch)
            && w'.requests[id].key == w.requests[id].key && w'.requests[id].actual == w.requests[id].actual
            && w'.registry == w.registry
  {
    hide Looked, LookupHit, OnChain, Run;
    var checked := Next(c, w, Check(id));
    var failed := Next(c, checked, Reply(id, Some(timedOut)));
    var done := Next(c, failed, Reconcile(id));
    assert done.requests[id].phase == Done(Mismatch) && done.registry == w.registry;
    assert done.requests[id].actual == w.requests[id].actual && done.requests[id].key == w.requests[id].key;
    hide Next;
    RunCons(c, w, Check(id), [Reply(id, Some(timedOut)), Reconcile(id)]);
    RunCons(c, checked, Reply(id, Some(timedOut)), [Reconcile(id)]);
    RunCons(c, failed, Reconcile(id), []);
    assert [Check(id), Reply(id, Some(timedOut)), Reconcile(id)] == [Check(id)] + [Reply(id, Some(timedOut)), Reconcile(id)];
    assert [Reply(id, Some(timedOut)), Reconcile(id)] == [Reply(id, Some(timedOut))] + [Reconcile(id)];
    assert [Reconcile(id)] == [Reconcile(id)] + [];
    NoSteps(c, done);
  }

  lemma NoSteps(c: Config, w: World)
    ensures Run(c, w, []) == w
  {
  }

  lemma RunCons(c: Config, w: World, a: Action, rest: seq<Action>)
    ensures Run(c, w, [a] + rest) == Run(c, Next(c, w, a), rest)
  {
    assert ([a] + rest)[1..] == rest;
  }

  // ----- A registry that is never wiped -------------------------------------------------

  predicate NoWipe(actions: seq<Action>)
  {
    forall i :: 0 <= i < |actions| ==> !actions[i].Wipe?
  }

  predicate NoFailure(actions: seq<Action>)
  {
    forall i :: 0 <= i < |actions| ==> actions[i].Reply? ==> actions[i].failure == None
  }

  /** What a request holds from the registry is still what the registry says. */
  ghost predicate HoldsCurrent(r: Request, chain: Hash)
  {
    && (r.truth != 0 ==> r.truth == chain)
    && match r.phase
       case Answered(Hashed(h)) => h != 0 ==> h == chain
       case Gated(fetched) => fetched.hash == chain
       case Rereading(cached) => cached == chain
       case Reanswered(cached, answer) => cached == chain && (answer.Hashed? ==> answer.hash == chain)
       case _ => true
  }

  ghost predicate Coherent(w: World)
  {
    && (forall k :: Peek(w.cache, k).Some? ==> Peek(w.cache, k).value.commit == OnChain(w.registry, k))
    && (forall id :: id in w.requests ==> HoldsCurrent(w.requests[id], OnChain(w.registry, w.requests[id].key)))
  }

  lemma StepCoherent(c: Config, w: World, r: Request, a: Action)
    requires Inv(c, w) && Coherent(w) && LogFits(r, c.ttl, c.warnOnly)
    requires HoldsCurrent(r, OnChain(w.registry, r.key))
    ensures HoldsCurrent(StepRequest(c, w, r, a).1, OnChain(w.registry, r.key))
    ensures forall k :: Peek(StepRequest(c, w, r, a).0, k).Some? ==>
              Peek(StepRequest(c, w, r, a).0, k).value.commit == OnChain(w.registry, k)
  {
    StepCache(c, w, r, a);
  }

  /** A posted value is permanent: nothing non-zero on chain changes. */
  lemma PostKeeps(c: Config, w: World, a: Action, k: Key)
    requires !a.Wipe? && OnChain(w.registry, k) != 0
    ensures OnChain(Next(c, w, a).registry, k) == OnChain(w.registry, k)
  {
  }

  lemma NextCoherent(c: Config, w: World, a: Action)
    requires Inv(c, w) && Coherent(w) && !a.Wipe?
    ensures Coherent(Next(c, w, a))
  {
    var w' := Next(c, w, a);
    if a.Post? {
      forall k | Peek(w.cache, k).Some?
        ensures Peek(w.cache, k).value.commit == OnChain(w'.registry, k)
      {
        PostKeeps(c, w, a, k);
      }
      forall id | id in w.requests
        ensures HoldsCurrent(w.requests[id], OnChain(w'.registry, w.requests[id].key))
      {
        if OnChain(w.registry, w.requests[id].key) != 0 {
          PostKeeps(c, w, a, w.requests[id].key);
        }
        assert LogFits(w.requests[id], c.ttl, c.warnOnly);
      }
    } else if !a.Tick? && !a.Begin? && a.id in w.requests {
      StepCoherent(c, w, w.requests[a.id], a);
    }
  }

  lemma {:induction false} RunCoherent(c: Config, w: World, actions: seq<Action>)
    requires Inv(c, w) && Coherent(w) && NoWipe(actions)
    ensures Inv(c, Run(c, w, actions)) && Coherent(Run(c, w, actions))
    decreases |actions|
  {
    if actions != [] {
      NextInv(c, w, actions[0]);
      NextCoherent(c, w, actions[0]);
      RunCoherent(c, Next(c, w, actions[0]), actions[1..]);
    }
  }

  /** With a write-once registry that is never wiped, every cached hash in every
      reachable state is non-zero and is the registry's current answer. */
  lemma CacheCoherence(c: Config, actions: seq<Action>, k: Key)
    requires c.cap > 0 && NoWipe(actions)
    ensures var w := Run(c, Initial, actions);
            Peek(w.cache, k).Some? ==>
              Peek(w.cache, k).value.commit == OnChain(w.registry, k) != 0
  {
    RunCoherent(c, Initial, actions);
  }

  // ----- Agreement with a gate that has no cache ---------------------------------------

  /** The same decisions with the registry's answer h in place of the cache. */
  function UncachedVerdict(h: Hash, actual: Hash, warnOnly: bool): (r: Verdict)
  {
    match Gate(FetchResult(Hashed(h)), warnOnly)
    case Gated(fetched) => EnforceIntegrity(fetched, actual, Failure(Transport), warnOnly)
    case Done(verdict) => verdict
    case _ => Unchecked
  }

  ghost predicate FollowsTruth(r: Request, warnOnly: bool)
  {
    match r.phase
    case Start | Reading => true
    case Answered(answer) => answer == Hashed(r.truth)
    case Gated(fetched) => fetched.hash == r.truth != 0
    case Rereading(cached) => cached == r.truth != 0
    case Reanswered(cached, answer) => cached == r.truth != 0 && answer == Hashed(r.truth)
    case Done(verdict) => verdict == UncachedVerdict(r.truth, r.actual, warnOnly)
  }

  ghost predicate AllFollow(c: Config, w: World)
  {
    forall id :: id in w.requests ==> FollowsTruth(w.requests[id], c.warnOnly)
  }

  lemma StepFollows(c: Config, w: World, r: Request, a: Action)
    requires Inv(c, w) && Coherent(w) && LogFits(r, c.ttl, c.warnOnly)
    requires HoldsCurrent(r, OnChain(w.registry, r.key)) && FollowsTruth(r, c.warnOnly)
    requires a.Reply? ==> a.failure == None
    ensures FollowsTruth(StepRequest(c, w, r, a).1, c.warnOnly)
  {
  }

  lemma {:induction false} RunFollows(c: Config, w: World, actions: seq<Action>)
    requires Inv(c, w) && Coherent(w) && AllFollow(c, w) && NoWipe(actions) && NoFailure(actions)
    ensures AllFollow(c, Run(c, w, actions))
    decreases |actions|
  {
    if actions != [] {
      var a := actions[0];
      NextInv(c, w, a);
      NextCoherent(c, w, a);
      if !a.Tick? && !a.Post? && !a.Begin? && a.id in w.requests {
        StepFollows(c, w, w.requests[a.id], a);
      }
      RunFollows(c, Next(c, w, a), actions[1..]);
    }
  }

  /** Without wipes and with successful registry calls, every request ends with
      the verdict a gate without a cache reaches on the registry's own answer at
      the moment this request was served; a non-zero such answer still stands. */
  lemma VerdictAgreesWithUncached(c: Config, actions: seq<Action>, id: nat)
    requires c.cap > 0 && NoWipe(actions) && NoFailure(actions)
    ensures var w := Run(c, Initial, actions);
            id in w.requests && w.requests[id].phase.Done? ==>
              var r := w.requests[id];
              && r.phase.verdict == UncachedVerdict(r.truth, r.actual, c.warnOnly)
              && (r.truth != 0 ==> r.truth == OnChain(w.registry, r.key))
  {
    RunCoherent(c, Initial, actions);
    RunFollows(c, Initial, actions);
  }
}
