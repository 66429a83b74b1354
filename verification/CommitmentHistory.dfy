/** Where a cached hash comes from, in every run of the commitment gate, wipes
    and failed calls included (src/commitment.rs, src/http.rs): each one was read
    from the registry, for its key, earlier in the run. */
module CommitmentHistory {
  import opened Options
  import opened Lru
  import opened Commitment
  import opened CommitmentRuns

  // ----- The worlds of a run --------------------------------------------------------

  /** The world before step n. */
  function At(c: Config, w0: World, actions: seq<Action>, n: nat): (w: World)
    requires n <= |actions|
  {
    CommitmentRuns.Run(c, w0, actions[..n])
  }

  lemma {:induction false} RunSnoc(c: Config, w: World, actions: seq<Action>, a: Action)
    ensures CommitmentRuns.Run(c, w, actions + [a]) == Next(c, CommitmentRuns.Run(c, w, actions), a)
    decreases |actions|
  {
    if actions == [] {
      assert [] + [a] == [a] && [a][1..] == [];
      assert CommitmentRuns.Run(c, Next(c, w, a), []) == Next(c, w, a);
    } else {
      assert (actions + [a])[1..] == actions[1..] + [a];
      RunSnoc(c, Next(c, w, actions[0]), actions[1..], a);
    }
  }

  lemma AtStep(c: Config, w0: World, actions: seq<Action>, n: nat)
    requires n < |actions|
    ensures At(c, w0, actions, n + 1) == Next(c, At(c, w0, actions, n), actions[n])
  {
    RunSnoc(c, w0, actions[..n], actions[n]);
    assert actions[..n + 1] == actions[..n] + [actions[n]];
  }

  lemma AtEnds(c: Config, w0: World, actions: seq<Action>)
    ensures At(c, w0, actions, 0) == w0
    ensures At(c, w0, actions, |actions|) == CommitmentRuns.Run(c, w0, actions)
  {
    assert actions[..0] == [] && actions[..|actions|] == actions;
  }

  lemma AtInv(c: Config, w0: World, actions: seq<Action>, n: nat)
    requires Inv(c, w0) && n <= |actions|
    ensures Inv(c, At(c, w0, actions, n))
  {
    RunInv(c, w0, actions[..n]);
  }

  // ----- Reads and writes --------------------------------------------------------------

  /** Step m of the run is the registry answering h to request id about key k:
      it is what the chain holds at that moment. */
  ghost predicate ReadAt(c: Config, w0: World, actions: seq<Action>, m: nat, id: nat, k: Key, h: Hash)
  {
    && m < |actions| && actions[m] == Reply(id, None)
    && Reads(At(c, w0, actions, m), id, k, h)
  }

  ghost predicate Reads(w: World, id: nat, k: Key, h: Hash)
  {
    && id in w.requests && w.requests[id].key == k
    && (w.requests[id].phase.Reading? || w.requests[id].phase.Rereading?)
    && OnChain(w.registry, k) == h
  }

  /** An answer that was read and is still to be written to the cache. */
  ghost predicate WaitingIn(w: World, id: nat, k: Key, h: Hash)
  {
    && id in w.requests && w.requests[id].key == k
    && (w.requests[id].phase.Answered? || w.requests[id].phase.Reanswered?)
    && w.requests[id].phase.answer == Hashed(h)
  }

  /** Request id has the answer h from a read before step n, or had it at the start. */
  ghost predicate Sourced(c: Config, w0: World, actions: seq<Action>, n: nat, id: nat, k: Key, h: Hash)
  {
    WaitingIn(w0, id, k, h) || exists m | 0 <= m < n :: ReadAt(c, w0, actions, m, id, k, h)
  }

  /** Step j writes the entry e for k, from an answer its request has. */
  ghost predicate WrittenAt(c: Config, w0: World, actions: seq<Action>, j: nat, k: Key, e: Entry)
  {
    && j < |actions| && actions[j].Reconcile?
    && e.commit != 0 && e.storedAt == At(c, w0, actions, j).now
    && Sourced(c, w0, actions, j, actions[j].id, k, e.commit)
  }

  /** The entry was there at the start, or a step before n wrote it. */
  ghost predicate Originates(c: Config, w0: World, actions: seq<Action>, n: nat, k: Key, e: Entry)
  {
    Peek(w0.cache, k) == Some(e) || exists j | 0 <= j < n :: WrittenAt(c, w0, actions, j, k, e)
  }

  ghost predicate AnswersSourced(c: Config, w0: World, actions: seq<Action>, n: nat)
    requires n <= |actions|
  {
    forall id, k, h :: WaitingIn(At(c, w0, actions, n), id, k, h) ==> Sourced(c, w0, actions, n, id, k, h)
  }

  ghost predicate EntriesSourced(c: Config, w0: World, actions: seq<Action>, n: nat)
    requires n <= |actions|
  {
    forall k, e :: Peek(At(c, w0, actions, n).cache, k) == Some(e) ==> Originates(c, w0, actions, n, k, e)
  }

  lemma NextWaiting(c: Config, w: World, a: Action, id: nat, k: Key, h: Hash)
    requires WaitingIn(Next(c, w, a), id, k, h)
    ensures WaitingIn(w, id, k, h) || (a == Reply(id, None) && Reads(w, id, k, h))
  {
  }

  lemma NextEntry(c: Config, w: World, a: Action, k: Key, e: Entry)
    requires Inv(c, w) && Peek(Next(c, w, a).cache, k) == Some(e)
    ensures || Peek(w.cache, k) == Some(e)
            || (a.Reconcile? && WaitingIn(w, a.id, k, e.commit) && e.commit != 0 && e.storedAt == w.now)
  {
    if !a.Tick? && !a.Post? && !a.Wipe? && !a.Begin? && a.id in w.requests {
      StepCache(c, w, w.requests[a.id], a);
    }
  }

  lemma StepSourced(c: Config, w0: World, actions: seq<Action>, n: nat)
    requires Inv(c, w0) && n < |actions|
    requires AnswersSourced(c, w0, actions, n) && EntriesSourced(c, w0, actions, n)
    ensures AnswersSourced(c, w0, actions, n + 1) && EntriesSourced(c, w0, actions, n + 1)
  {
    var w, a := At(c, w0, actions, n), actions[n];
    AtStep(c, w0, actions, n);
    AtInv(c, w0, actions, n);
    hide Next, Inv, Reads, Peek, At;
    var next := At(c, w0, actions, n + 1);
    forall id, k, h | WaitingIn(next, id, k, h)
      ensures Sourced(c, w0, actions, n + 1, id, k, h)
    {
      NextWaiting(c, w, a, id, k, h);
      assert WaitingIn(w, id, k, h) || ReadAt(c, w0, actions, n, id, k, h);
    }
    forall k, e | Peek(next.cache, k) == Some(e)
      ensures Originates(c, w0, actions, n + 1, k, e)
    {
      NextEntry(c, w, a, k, e);
      assert Originates(c, w0, actions, n, k, e) || WrittenAt(c, w0, actions, n, k, e);
    }
  }

  lemma {:induction false} RunSourced(c: Config, w0: World, actions: seq<Action>, n: nat)
    requires Inv(c, w0) && n <= |actions|
    ensures AnswersSourced(c, w0, actions, n) && EntriesSourced(c, w0, actions, n)
  {
    if n == 0 {
      AtEnds(c, w0, actions);
    } else {
      RunSourced(c, w0, actions, n - 1);
      StepSourced(c, w0, actions, n - 1);
    }
  }

  // ----- What a cache hit rests on ------------------------------------------------------

  /** Step m read h from the registry for k, and step j wrote it to the cache. */
  ghost predicate Cached(c: Config, actions: seq<Action>, m: nat, j: nat, k: Key, h: Hash)
  {
    && m < j < |actions| && actions[j].Reconcile?
    && ReadAt(c, Initial, actions, m, actions[j].id, k, h)
  }

  lemma InitialInv(c: Config)
    requires c.cap > 0
    ensures Inv(c, Initial)
  {
  }

  /** An entry of a run from the start was read, then written. */
  lemma EntryWasRead(c: Config, actions: seq<Action>, n: nat, k: Key, e: Entry)
    requires c.cap > 0 && n <= |actions| && Peek(At(c, Initial, actions, n).cache, k) == Some(e)
    ensures exists m: nat, j: nat ::
              Cached(c, actions, m, j, k, e.commit) && j < n && e.storedAt == At(c, Initial, actions, j).now
    ensures e.commit != 0
  {
    InitialInv(c);
    RunSourced(c, Initial, actions, n);
    hide At;
    assert Originates(c, Initial, actions, n, k, e);
    var j :| 0 <= j < n && WrittenAt(c, Initial, actions, j, k, e);
    var m :| 0 <= m < j && ReadAt(c, Initial, actions, m, actions[j].id, k, e.commit);
    assert Cached(c, actions, m, j, k, e.commit);
  }

  /** Bounded staleness of every hit, across any number of wipes: the hash served
      was read from the registry, for this key, by an earlier step of the run, and
      stored by a later one less than one TTL ago. */
  lemma HitWasRead(c: Config, actions: seq<Action>, n: nat, k: Key)
    requires c.cap > 0 && n <= |actions|
    requires var w := At(c, Initial, actions, n); LookupHit(w.cache, k, w.now, c.ttl).Some?
    ensures var w := At(c, Initial, actions, n);
            exists m: nat, j: nat ::
              && Cached(c, actions, m, j, k, LookupHit(w.cache, k, w.now, c.ttl).value) && j < n
              && At(c, Initial, actions, j).now <= w.now < At(c, Initial, actions, j).now + c.ttl
  {
    var w := At(c, Initial, actions, n);
    var e := Peek(w.cache, k).value;
    InitialInv(c);
    AtInv(c, Initial, actions, n);
    assert e.storedAt <= w.now < e.storedAt + c.ttl;
    EntryWasRead(c, actions, n, k, e);
  }

  // ----- What the log of a request rests on ------------------------------------------------

  /** Step l is the lookup of request id that found h, age old. */
  ghost predicate FoundAt(c: Config, actions: seq<Action>, l: nat, id: nat, k: Key, h: Hash, age: nat)
  {
    && l < |actions| && actions[l] == Lookup(id)
    && Finds(c, At(c, Initial, actions, l), id, k, h, age)
  }

  ghost predicate Finds(c: Config, w: World, id: nat, k: Key, h: Hash, age: nat)
  {
    && id in w.requests && w.requests[id].key == k && age < c.ttl <= c.ttl + w.now
    && age <= w.now && Peek(w.cache, k) == Some(Entry(h, w.now - age))
  }

  ghost predicate Happened(c: Config, actions: seq<Action>, n: nat, id: nat, k: Key, e: Event)
  {
    match e
    case FromCache(h, age) => exists l | 0 <= l < n :: FoundAt(c, actions, l, id, k, h, age)
    case FromRegistry(Hashed(h)) => exists m | 0 <= m < n :: ReadAt(c, Initial, actions, m, id, k, h)
    case FromRegistry(Failed(_)) => true
  }

  ghost predicate LogsHappened(c: Config, actions: seq<Action>, n: nat)
    requires n <= |actions|
  {
    var w := At(c, Initial, actions, n);
    forall id, e :: id in w.requests && e in w.requests[id].log ==> Happened(c, actions, n, id, w.requests[id].key, e)
  }

  lemma NextLog(c: Config, w: World, a: Action, id: nat, e: Event)
    requires Inv(c, w) && id in Next(c, w, a).requests && e in Next(c, w, a).requests[id].log
    ensures var k := Next(c, w, a).requests[id].key;
            || (id in w.requests && w.requests[id].key == k && e in w.requests[id].log)
            || (e.FromCache? && a == Lookup(id) && Finds(c, w, id, k, e.hash, e.age))
            || (e.FromRegistry? && e.answer.Hashed? && a == Reply(id, None) && Reads(w, id, k, e.answer.hash))
            || (e.FromRegistry? && e.answer.Failed?)
  {
    hide Looked, Reconciled;
  }

  lemma StepLogs(c: Config, actions: seq<Action>, n: nat)
    requires c.cap > 0 && n < |actions| && LogsHappened(c, actions, n)
    ensures LogsHappened(c, actions, n + 1)
  {
    var w, a := At(c, Initial, actions, n), actions[n];
    InitialInv(c);
    AtStep(c, Initial, actions, n);
    AtInv(c, Initial, actions, n);
    hide Next, Inv, Reads, Finds, Peek, At;
    var next := At(c, Initial, actions, n + 1);
    forall id, e | id in next.requests && e in next.requests[id].log
      ensures Happened(c, actions, n + 1, id, next.requests[id].key, e)
    {
      var k := next.requests[id].key;
      NextLog(c, w, a, id, e);
      if id in w.requests && w.requests[id].key == k && e in w.requests[id].log {
        assert Happened(c, actions, n, id, k, e);
      } else if e.FromCache? {
        assert FoundAt(c, actions, n, id, k, e.hash, e.age);
      } else if e.answer.Hashed? {
        assert ReadAt(c, Initial, actions, n, id, k, e.answer.hash);
      }
    }
  }

  lemma {:induction false} RunLogs(c: Config, actions: seq<Action>, n: nat)
    requires c.cap > 0 && n <= |actions|
    ensures LogsHappened(c, actions, n)
  {
    if n == 0 {
      AtEnds(c, Initial, actions);
    } else {
      RunLogs(c, actions, n - 1);
      StepLogs(c, actions, n - 1);
    }
  }

  /** Request id read h from the registry itself. */
  ghost predicate ReadItself(c: Config, actions: seq<Action>, id: nat, k: Key, h: Hash)
  {
    exists m :: ReadAt(c, Initial, actions, m, id, k, h)
  }

  /** Request id was served h from the cache: some request read it from the
      registry at step m and stored it at step j, less than one TTL before this
      one looked it up at step l. */
  ghost predicate ServedFromRead(c: Config, actions: seq<Action>, m: nat, j: nat, l: nat, id: nat, k: Key, h: Hash)
  {
    && Cached(c, actions, m, j, k, h) && j < l < |actions| && actions[l] == Lookup(id)
    && At(c, Initial, actions, j).now <= At(c, Initial, actions, l).now < At(c, Initial, actions, j).now + c.ttl
  }

  ghost predicate ServedCached(c: Config, actions: seq<Action>, id: nat, k: Key, h: Hash)
  {
    exists m: nat, j: nat, l: nat :: ServedFromRead(c, actions, m, j, l, id, k, h)
  }

  /** What a request saw, it saw: a logged answer was read by it, and a logged
      hit rests on an earlier read of the registry, stored within the TTL. */
  lemma LoggedWasRead(c: Config, actions: seq<Action>, id: nat, e: Event)
    requires c.cap > 0
    requires var w := CommitmentRuns.Run(c, Initial, actions); id in w.requests && e in w.requests[id].log
    ensures var k := CommitmentRuns.Run(c, Initial, actions).requests[id].key;
            && (e.FromRegistry? && e.answer.Hashed? ==> ReadItself(c, actions, id, k, e.answer.hash))
            && (e.FromCache? ==> ServedCached(c, actions, id, k, e.hash))
  {
    var n := |actions|;
    var k := CommitmentRuns.Run(c, Initial, actions).requests[id].key;
    AtEnds(c, Initial, actions);
    RunLogs(c, actions, n);
    assert Happened(c, actions, n, id, k, e);
    if e.FromCache? {
      var l :| 0 <= l < n && FoundAt(c, actions, l, id, k, e.hash, e.age);
      var entry := Entry(e.hash, At(c, Initial, actions, l).now - e.age);
      EntryWasRead(c, actions, l, k, entry);
      var m: nat, j: nat :| Cached(c, actions, m, j, k, e.hash) && j < l && entry.storedAt == At(c, Initial, actions, j).now;
      assert ServedFromRead(c, actions, m, j, l, id, k, e.hash);
    }
  }

  /** The verdict of a finished request, read off its log. */
  ghost predicate Judged(r: Request, warnOnly: bool)
  {
    && r.phase.Done? && 1 <= |r.log| <= 2
    && var last := r.log[|r.log| - 1];
    && (r.phase.verdict == Mismatch <==>
          && !warnOnly && last.FromRegistry?
          && if last.answer.Hashed? then last.answer.hash != 0 && last.answer.hash != r.actual
             else |r.log| == 2 && r.log[0].FromCache? && r.log[0].hash != r.actual)
    && (r.phase.verdict == Pass <==>
          if last.FromRegistry? then last.answer.Hashed? && last.answer.hash == r.actual != 0
          else last.hash == r.actual)
    && (r.phase.verdict == Pass ==> r.actual != 0)
  }

  lemma FinishedJudged(r: Request, ttl: nat, warnOnly: bool)
    requires LogFits(r, ttl, warnOnly) && r.phase.Done?
    ensures Judged(r, warnOnly)
    ensures |r.log| == 2 ==> r.log[1].FromRegistry?
  {
  }

  /** Whatever the interleaving, the wipes and the failures: how a finished
      request was judged. It is refused for a mismatch exactly when the gate
      enforces and its newest word is another hash, read by itself, or a cached
      one whose re-read failed; and it passes only on a hash equal to that of the
      bytes which the registry gave it, or gave an earlier request whose copy was
      stored less than one TTL before it was served. */
  lemma NoRefusalOnCacheAlone(c: Config, actions: seq<Action>, id: nat)
    requires c.cap > 0
    requires var w := CommitmentRuns.Run(c, Initial, actions); id in w.requests && w.requests[id].phase.Done?
    ensures var r := CommitmentRuns.Run(c, Initial, actions).requests[id];
            && Judged(r, c.warnOnly)
            && var last := r.log[|r.log| - 1];
            && (last.FromRegistry? && last.answer.Hashed? ==> ReadItself(c, actions, id, r.key, last.answer.hash))
            && (r.log[0].FromCache? ==> ServedCached(c, actions, id, r.key, r.log[0].hash))
            && (r.phase.verdict == Pass ==>
                  ReadItself(c, actions, id, r.key, r.actual) || ServedCached(c, actions, id, r.key, r.actual))
  {
    InitialInv(c);
    RunInv(c, Initial, actions);
    var r := CommitmentRuns.Run(c, Initial, actions).requests[id];
    assert LogFits(r, c.ttl, c.warnOnly);
    hide CommitmentRuns.Run, ReadItself, ServedCached, Inv, CacheSound, LogFits;
    FinishedJudged(r, c.ttl, c.warnOnly);
    var last := r.log[|r.log| - 1];
    assert last in r.log && r.log[0] in r.log;
    LoggedWasRead(c, actions, id, last);
    LoggedWasRead(c, actions, id, r.log[0]);
  }
}
