/** How long a wiped registry's answers can live in the commitment cache
    (src/commitment.rs), over runs with any number of wipes, and runs from the
    start that reach the cases where the gate and the chain disagree. */
module CommitmentStaleness {
  import opened Options
  import opened Lru
  import opened Commitment
  import opened CommitmentRuns
  import opened CommitmentHistory

  // ----- Staleness from any moment on ------------------------------------------------

  /** The chain holds h for k before step n of the run from w. */
  ghost predicate HoldsAt(c: Config, w: World, actions: seq<Action>, n: nat, k: Key, h: Hash)
  {
    n <= |actions| && OnChain(At(c, w, actions, n).registry, k) == h
  }

  /** At some moment of the run from w the chain holds h for k. */
  ghost predicate HeldSince(c: Config, w: World, actions: seq<Action>, k: Key, h: Hash)
  {
    exists n :: HoldsAt(c, w, actions, n, k, h)
  }

  /** Every registry answer still to be written to the cache is current. */
  ghost predicate InFlightAgrees(w: World)
  {
    forall id, k, h :: WaitingIn(w, id, k, h) && h != 0 ==> OnChain(w.registry, k) == h
  }

  /** From `since + ttl` on, a hit is a hash the chain has held since. */
  ghost predicate HitsHeld(c: Config, w: World, actions: seq<Action>)
  {
    var end := CommitmentRuns.Run(c, w, actions);
    end.now >= w.now + c.ttl ==>
      forall k :: LookupHit(end.cache, k, end.now, c.ttl).Some? ==>
        HeldSince(c, w, actions, k, LookupHit(end.cache, k, end.now, c.ttl).value)
  }

  /** In every further run, with any number of wipes. */
  ghost predicate StalenessBounded(c: Config, w: World)
  {
    forall actions :: HitsHeld(c, w, actions)
  }

  lemma HitHeld(c: Config, w: World, actions: seq<Action>, k: Key)
    requires Inv(c, w) && InFlightAgrees(w)
    requires var end := CommitmentRuns.Run(c, w, actions);
             end.now >= w.now + c.ttl && LookupHit(end.cache, k, end.now, c.ttl).Some?
    ensures var end := CommitmentRuns.Run(c, w, actions);
            HeldSince(c, w, actions, k, LookupHit(end.cache, k, end.now, c.ttl).value)
  {
    var n := |actions|;
    var end := CommitmentRuns.Run(c, w, actions);
    var e := Peek(end.cache, k).value;
    AtEnds(c, w, actions);
    AtInv(c, w, actions, n);
    RunSourced(c, w, actions, n);
    assert Originates(c, w, actions, n, k, e);
    assert Peek(w.cache, k) != Some(e);
    hide At;
    var j :| 0 <= j < n && WrittenAt(c, w, actions, j, k, e);
    if WaitingIn(w, actions[j].id, k, e.commit) {
      assert HoldsAt(c, w, actions, 0, k, e.commit);
    } else {
      var m :| 0 <= m < j && ReadAt(c, w, actions, m, actions[j].id, k, e.commit);
      assert HoldsAt(c, w, actions, m, k, e.commit);
    }
  }

  /** From any moment, just after a wipe say, and over every further run: one TTL
      later no lookup returns a hash the chain has stopped holding before that
      moment, if and only if no such answer is waiting to be written. */
  lemma StalenessBoundedIff(c: Config, w: World)
    requires Inv(c, w) && c.ttl > 0
    ensures StalenessBounded(c, w) <==> InFlightAgrees(w)
  {
    if InFlightAgrees(w) {
      forall actions
        ensures HitsHeld(c, w, actions)
      {
        var end := CommitmentRuns.Run(c, w, actions);
        if end.now >= w.now + c.ttl {
          forall k | LookupHit(end.cache, k, end.now, c.ttl).Some?
            ensures HeldSince(c, w, actions, k, LookupHit(end.cache, k, end.now, c.ttl).value)
          {
            HitHeld(c, w, actions, k);
          }
        }
      }
    } else {
      var id, k, h :| WaitingIn(w, id, k, h) && h != 0 && OnChain(w.registry, k) != h;
      LateAnswer(c, w, id, k, h);
    }
  }

  lemma RunTwo(c: Config, w: World, a: Action, b: Action)
    ensures CommitmentRuns.Run(c, w, [a, b]) == Next(c, Next(c, w, a), b)
    ensures At(c, w, [a, b], 0) == w && At(c, w, [a, b], 1) == Next(c, w, a)
    ensures At(c, w, [a, b], 2) == Next(c, Next(c, w, a), b)
  {
    AtEnds(c, w, [a, b]);
    AtStep(c, w, [a, b], 0);
    AtStep(c, w, [a, b], 1);
  }

  /** An outdated answer written one TTL later is served. */
  lemma LateAnswer(c: Config, w: World, id: nat, k: Key, h: Hash)
    requires Inv(c, w) && c.ttl > 0
    requires WaitingIn(w, id, k, h) && h != 0 && OnChain(w.registry, k) != h
    ensures !StalenessBounded(c, w)
  {
    var late := [Tick(c.ttl), Reconcile(id)];
    var ticked := Next(c, w, Tick(c.ttl));
    var end := Next(c, ticked, Reconcile(id));
    RunTwo(c, w, Tick(c.ttl), Reconcile(id));
    StoredPeek(w.cache, k, Entry(h, ticked.now), c.cap, k);
    assert LookupHit(end.cache, k, end.now, c.ttl) == Some(h);
    forall n
      ensures !HoldsAt(c, w, late, n, k, h)
    {
      if n <= 2 {
        assert At(c, w, late, n).registry == w.registry;
      }
    }
    assert !HitsHeld(c, w, late);
  }

  // ----- Held and posted -----------------------------------------------------------------

  lemma NextRegistry(c: Config, w: World, a: Action, k: Key)
    ensures var h := OnChain(Next(c, w, a).registry, k);
            h == OnChain(w.registry, k) || h == 0 || a == Post(k.handle, h)
    ensures !a.Wipe? && OnChain(w.registry, k) != 0 ==> OnChain(Next(c, w, a).registry, k) == OnChain(w.registry, k)
  {
  }

  /** What the chain holds it held at the start, or somebody posted it since. */
  lemma {:induction false} HeldWasPosted(c: Config, w: World, actions: seq<Action>, n: nat, k: Key, h: Hash)
    requires HoldsAt(c, w, actions, n, k, h) && h != 0 && OnChain(w.registry, k) != h
    ensures Post(k.handle, h) in actions
  {
    if n == 0 {
      AtEnds(c, w, actions);
    } else {
      AtStep(c, w, actions, n - 1);
      NextRegistry(c, At(c, w, actions, n - 1), actions[n - 1], k);
      if !HoldsAt(c, w, actions, n - 1, k, h) {
        assert actions[n - 1] == Post(k.handle, h);
      } else {
        HeldWasPosted(c, w, actions, n - 1, k, h);
      }
    }
  }

  /** Right after a wipe with nothing waiting: a TTL later every hit is a hash
      posted since, however often the registry was wiped again. */
  lemma WipeForgottenAfterTtl(c: Config, w: World, actions: seq<Action>, k: Key)
    requires Inv(c, w) && w.registry == map[] && InFlightAgrees(w)
    ensures var end := CommitmentRuns.Run(c, w, actions);
            end.now >= w.now + c.ttl && LookupHit(end.cache, k, end.now, c.ttl).Some? ==>
              Post(k.handle, LookupHit(end.cache, k, end.now, c.ttl).value) in actions
  {
    var end := CommitmentRuns.Run(c, w, actions);
    if end.now >= w.now + c.ttl && LookupHit(end.cache, k, end.now, c.ttl).Some? {
      var h := LookupHit(end.cache, k, end.now, c.ttl).value;
      RunInv(c, w, actions);
      HitHeld(c, w, actions, k);
      var n :| HoldsAt(c, w, actions, n, k, h);
      HeldWasPosted(c, w, actions, n, k, h);
    }
  }

  lemma {:induction false} HeldStays(c: Config, w: World, actions: seq<Action>, n: nat, n': nat, k: Key, h: Hash)
    requires HoldsAt(c, w, actions, n, k, h) && h != 0 && n <= n' <= |actions| && NoWipe(actions)
    ensures HoldsAt(c, w, actions, n', k, h)
  {
    if n < n' {
      HeldStays(c, w, actions, n, n' - 1, k, h);
      AtStep(c, w, actions, n' - 1);
      NextRegistry(c, At(c, w, actions, n' - 1), actions[n' - 1], k);
    }
  }

  /** If there was no further wipe, such a hit is the registry's current answer. */
  lemma HitIsCurrent(c: Config, w: World, actions: seq<Action>, k: Key)
    requires Inv(c, w) && InFlightAgrees(w) && NoWipe(actions)
    ensures var end := CommitmentRuns.Run(c, w, actions);
            end.now >= w.now + c.ttl && LookupHit(end.cache, k, end.now, c.ttl).Some? ==>
              LookupHit(end.cache, k, end.now, c.ttl).value == OnChain(end.registry, k)
  {
    var end := CommitmentRuns.Run(c, w, actions);
    if end.now >= w.now + c.ttl && LookupHit(end.cache, k, end.now, c.ttl).Some? {
      var h := LookupHit(end.cache, k, end.now, c.ttl).value;
      RunInv(c, w, actions);
      HitHeld(c, w, actions, k);
      var n :| HoldsAt(c, w, actions, n, k, h);
      HeldStays(c, w, actions, n, |actions|, k, h);
      AtEnds(c, w, actions);
    }
  }

  // ----- Runs from the start that reach the bad cases ---------------------------------------

  lemma ReachableNext(c: Config, w: World, a: Action)
    requires Reachable(c, w)
    ensures Reachable(c, Next(c, w, a))
  {
    var actions :| w == CommitmentRuns.Run(c, Initial, actions);
    RunSnoc(c, Initial, actions, a);
  }

  lemma {:induction false} ReachableRun(c: Config, w: World, actions: seq<Action>)
    requires Reachable(c, w)
    ensures Reachable(c, CommitmentRuns.Run(c, w, actions))
    decreases |actions|
  {
    if actions != [] {
      ReachableNext(c, w, actions[0]);
      ReachableRun(c, Next(c, w, actions[0]), actions[1..]);
    }
  }

  /** A hash posted, asked for and read, and the registry wiped before the answer
      is written. */
  lemma WaitingReachable(c: Config, k: Key, h: Hash) returns (w: World)
    requires h != 0
    ensures Reachable(c, w) && WaitingIn(w, 0, k, h) && w.registry == map[] && !InFlightAgrees(w)
    ensures w.cache == [] && w.requests.Keys == {0}
  {
    assert Reachable(c, Initial) by { assert Initial == CommitmentRuns.Run(c, Initial, []); }
    hide Reachable;
    var posted := Next(c, Initial, Post(k.handle, h));
    ReachableNext(c, Initial, Post(k.handle, h));
    var begun := Next(c, posted, Begin(0, k, h));
    ReachableNext(c, posted, Begin(0, k, h));
    var looked := Next(c, begun, Lookup(0));
    ReachableNext(c, begun, Lookup(0));
    UnrollLookup([], k, 0, c.ttl, c.cap);
    assert looked.requests[0].phase == Reading && looked.cache == [];
    var read := Next(c, looked, Reply(0, None));
    ReachableNext(c, looked, Reply(0, None));
    w := Next(c, read, Wipe);
    ReachableNext(c, read, Wipe);
    assert WaitingIn(w, 0, k, h);
  }

  /** The answer is written after the wipe, and the redeployed registry gets
      another hash: the cache is stale. */
  lemma StaleReachable(c: Config, k: Key, old': Hash, new': Hash) returns (w: World)
    requires c.cap > 0 && c.ttl > 0 && old' != 0 && new' != 0
    ensures Reachable(c, w) && w.requests.Keys == {0}
    ensures LookupHit(w.cache, k, w.now, c.ttl) == Some(old') && OnChain(w.registry, k) == new'
  {
    var waiting := WaitingReachable(c, k, old');
    hide Reachable;
    var written := Next(c, waiting, Reconcile(0));
    ReachableNext(c, waiting, Reconcile(0));
    StoredPeek([], k, Entry(old', waiting.now), c.cap, k);
    assert LookupHit(written.cache, k, written.now, c.ttl) == Some(old');
    hide LookupHit;
    w := Next(c, written, Post(k.handle, new'));
    ReachableNext(c, written, Post(k.handle, new'));
  }

  /** So a run from the start refuses bytes that match the chain: the registry
      was wiped and redeployed, and the re-read failed. */
  lemma RefusalReachable(c: Config, k: Key, old': Hash, new': Hash, timedOut: bool) returns (w: World)
    requires c.cap > 0 && c.ttl > 0 && !c.warnOnly && old' != 0 && new' != 0 && old' != new'
    ensures Reachable(c, w) && 1 in w.requests && w.requests[1].key == k
    ensures w.requests[1].phase == Done(Mismatch) && w.requests[1].actual == OnChain(w.registry, k) == new'
  {
    var stale := StaleReachable(c, k, old', new');
    var actions := [Begin(1, k, new'), Lookup(1), Check(1), Reply(1, Some(timedOut)), Reconcile(1)];
    RefusedThoughChainAgrees(c, stale, 1, k, timedOut);
    ReachableRun(c, stale, actions);
    w := CommitmentRuns.Run(c, stale, actions);
  }

  /** And one from the start breaks the bound of one TTL. */
  lemma OutdatedHitReachable(c: Config, k: Key, h: Hash) returns (w: World)
    requires c.cap > 0 && c.ttl > 0 && h != 0
    ensures Reachable(c, w) && !StalenessBounded(c, w)
  {
    w := WaitingReachable(c, k, h);
    ReachableInv(c, w);
    LateAnswer(c, w, 0, k, h);
  }
}
