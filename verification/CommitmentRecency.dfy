/** How long a commitment stays in the cache of the running service
    (src/commitment.rs): an entry just served or stored outlives any interleaving
    that touches fewer other keys than the cache holds. */
module CommitmentRecency {
  import opened Options
  import opened Lru
  import opened Commitment
  import opened CommitmentRuns

  /** The answer a request is about to write to the cache. */
  function Waiting(r: Request): (answer: Option<Answer>)
  {
    match r.phase
    case Answered(answer) => Some(answer)
    case Reanswered(_, answer) => Some(answer)
    case _ => None
  }

  predicate LooksUp(w: World, a: CommitmentRuns.Action)
  {
    a.Lookup? && a.id in w.requests && w.requests[a.id].phase == Start
  }

  predicate Writes(w: World, a: CommitmentRuns.Action)
  {
    a.Reconcile? && a.id in w.requests && Waiting(w.requests[a.id]).Some?
  }

  /** The key a step finds in the cache or stores there; looking for an absent key
      and finding nothing to store touch none. */
  function TouchedKey(w: World, a: CommitmentRuns.Action): (keys: set<Key>)
  {
    if LooksUp(w, a) && w.requests[a.id].key in Keys(w.cache) then {w.requests[a.id].key}
    else if Writes(w, a) && Waiting(w.requests[a.id]).value.Hashed? && Waiting(w.requests[a.id]).value.hash != 0 then
      {w.requests[a.id].key}
    else {}
  }

  function TouchedKeys(c: Config, w: World, actions: seq<CommitmentRuns.Action>): (keys: set<Key>)
    decreases |actions|
  {
    if actions == [] then {}
    else TouchedKey(w, actions[0]) + TouchedKeys(c, CommitmentRuns.Next(c, w, actions[0]), actions[1..])
  }

  /** The step writes what the registry said of k, or evicts k because of it. */
  predicate Rewrites(w: World, a: CommitmentRuns.Action, k: Key)
  {
    Writes(w, a) && w.requests[a.id].key == k && Waiting(w.requests[a.id]).value.Hashed?
  }

  predicate NeverRewritten(c: Config, w: World, actions: seq<CommitmentRuns.Action>, k: Key)
    decreases |actions|
  {
    actions == [] ||
    (!Rewrites(w, actions[0], k) && NeverRewritten(c, CommitmentRuns.Next(c, w, actions[0]), actions[1..], k))
  }

  /** The step serves the entry e of k from the cache, or stores it. */
  ghost predicate Warms(c: Config, w: World, a: CommitmentRuns.Action, k: Key, e: Entry)
  {
    && (a.Lookup? || a.Reconcile?) && a.id in w.requests && w.requests[a.id].key == k
    && (a.Lookup? ==> w.requests[a.id].phase == Start && Peek(w.cache, k) == Some(e) && Fresh(e, w.now, c.ttl))
    && (a.Reconcile? ==> Waiting(w.requests[a.id]) == Some(Hashed(e.commit)) && e.commit != 0 && e.storedAt == w.now)
  }

  // ----- One step ---------------------------------------------------------------------

  lemma CacheOfStep(c: Config, w: World, a: CommitmentRuns.Action)
    ensures CommitmentRuns.Next(c, w, a).cache
         == if LooksUp(w, a) then Looked(w.cache, w.requests[a.id].key, w.now, c.ttl, c.cap)
            else if Writes(w, a) then
              Reconciled(w.cache, w.requests[a.id].key, Waiting(w.requests[a.id]).value, w.now, c.cap)
            else w.cache
  {
    hide Looked, Reconciled, LookupHit, NeedsReread, EnforceIntegrity, Gate;
  }

  lemma WarmsFront(c: Config, w: World, a: CommitmentRuns.Action, k: Key, e: Entry, t: set<Key>)
    requires Warms(c, w, a, k, e)
    ensures Held(CommitmentRuns.Next(c, w, a).cache, k, e, t)
  {
    CacheOfStep(c, w, a);
    hide CommitmentRuns.Next;
    if a.Lookup? {
      UnrollLookup(w.cache, k, w.now, c.ttl, c.cap);
    }
    hide Looked;
  }

  /** A step of another request, or a lookup of k itself, keeps k among the newest. */
  lemma StepHeld(c: Config, w: World, a: CommitmentRuns.Action, k: Key, e: Entry, t: set<Key>)
    requires CommitmentRuns.Inv(c, w) && Held(w.cache, k, e, t) && k !in t && |t| < c.cap
    requires TouchedKey(w, a) <= t + {k} && !Rewrites(w, a, k) && Fresh(e, w.now, c.ttl)
    ensures Held(CommitmentRuns.Next(c, w, a).cache, k, e, t)
  {
    CacheOfStep(c, w, a);
    hide CommitmentRuns.Next, Looked, Held, Keys;
    if LooksUp(w, a) {
      LookupHeld(c, w.cache, w.requests[a.id].key, w.now, k, e, t);
    } else if Writes(w, a) {
      var key, answer := w.requests[a.id].key, Waiting(w.requests[a.id]).value;
      if answer.Hashed? {
        ApplyHeld(w.cache, if answer.hash != 0 then OpPut(key, Entry(answer.hash, w.now)) else OpPop(key), c.cap, k, e, t);
      }
    }
  }

  lemma LookupHeld(c: Config, cache: Cache, key: Key, now: nat, k: Key, e: Entry, t: set<Key>)
    requires Valid(cache, c.cap) && c.cap > 0 && Held(cache, k, e, t) && k !in t && |t| < c.cap
    requires key in Keys(cache) ==> key in t + {k}
    requires Fresh(e, now, c.ttl)
    ensures Held(Looked(cache, key, now, c.ttl, c.cap), k, e, t)
  {
    HeldPeek(cache, k, e, t);
    UnrollLookup(cache, key, now, c.ttl, c.cap);
    ApplyHeld(cache, OpGet(key), c.cap, k, e, t);
    if key != k {
      WithoutHeld(Get(cache, key), key, k, e, t);
    }
  }

  // ----- Whole runs -----------------------------------------------------------------------

  lemma {:induction false} RunHeldIn(c: Config, w: World, actions: seq<CommitmentRuns.Action>, k: Key, e: Entry, t: set<Key>)
    requires CommitmentRuns.Inv(c, w) && Held(w.cache, k, e, t) && k !in t && |t| < c.cap
    requires TouchedKeys(c, w, actions) <= t + {k} && NeverRewritten(c, w, actions, k)
    requires Fresh(e, CommitmentRuns.Run(c, w, actions).now, c.ttl)
    ensures Held(CommitmentRuns.Run(c, w, actions).cache, k, e, t)
    decreases |actions|
  {
    if actions != [] {
      var next := CommitmentRuns.Next(c, w, actions[0]);
      TimeGrows(c, w, actions);
      hide CommitmentRuns.Next, CommitmentRuns.Inv, Held, TouchedKey, Rewrites;
      StepHeld(c, w, actions[0], k, e, t);
      NextInv(c, w, actions[0]);
      RunHeldIn(c, next, actions[1..], k, e, t);
    }
  }

  lemma {:induction false} TimeGrows(c: Config, w: World, actions: seq<CommitmentRuns.Action>)
    ensures w.now <= CommitmentRuns.Run(c, w, actions).now
    decreases |actions|
  {
    if actions != [] {
      TimeGrows(c, CommitmentRuns.Next(c, w, actions[0]), actions[1..]);
    }
  }

  /** An entry that a step serves or stores is still served after every further run,
      of any number of requests and with any failures and wipes, that ends before the
      entry is one TTL old, touches fewer other keys than the cache holds, and in
      which the registry's word on the key is not written anew. */
  lemma WarmEntryServes(c: Config, w: World, first: CommitmentRuns.Action, actions: seq<CommitmentRuns.Action>, k: Key, e: Entry)
    requires CommitmentRuns.Inv(c, w) && Warms(c, w, first, k, e)
    requires var next := CommitmentRuns.Next(c, w, first);
             |TouchedKeys(c, next, actions) - {k}| < c.cap && NeverRewritten(c, next, actions, k)
    requires Fresh(e, CommitmentRuns.Run(c, CommitmentRuns.Next(c, w, first), actions).now, c.ttl)
    ensures var end := CommitmentRuns.Run(c, CommitmentRuns.Next(c, w, first), actions);
            LookupHit(end.cache, k, end.now, c.ttl) == Some(e.commit)
  {
    hide CommitmentRuns.Next, CommitmentRuns.Inv, Warms, Held, CommitmentRuns.Run, TouchedKeys, NeverRewritten, Fresh;
    var next := CommitmentRuns.Next(c, w, first);
    var t := TouchedKeys(c, next, actions) - {k};
    WarmsFront(c, w, first, k, e, t);
    NextInv(c, w, first);
    RunHeldIn(c, next, actions, k, e, t);
    HeldPeek(CommitmentRuns.Run(c, next, actions).cache, k, e, t);
  }
}
