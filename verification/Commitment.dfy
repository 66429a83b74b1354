/** The commitment cache and the decisions of the commitment gate
    (src/commitment.rs; enforce_commitment and enforce_commitment_integrity in
    src/http.rs). Hashes are numbers, zero meaning "no commitment"; what the
    registry answers and what time it is are inputs. */
module Commitment {
  import opened Options
  import opened Lru

  type Hash = nat

  datatype Key = Key(hostChain: nat, handle: nat)

  datatype Entry = Entry(commit: Hash, storedAt: nat)

  type Cache = seq<Slot<Key, Entry>>

  datatype CommitmentError = NotFound | Timeout | Transport

  /** One `getCommitment` call: a hash, zero when absent, or a failure. */
  datatype Answer = Hashed(hash: Hash) | Failed(timedOut: bool)

  datatype Fetched = Fetched(hash: Hash, fromCache: bool)

  // ----- Single cache operations, each under the mutex -----------------------------

  /** `stored_at.elapsed() < cache_ttl`; `elapsed` saturates at zero. */
  predicate Fresh(e: Entry, now: nat, ttl: nat)
  {
    (if now >= e.storedAt then now - e.storedAt else 0) < ttl
  }

  function LookupHit(cache: Cache, key: Key, now: nat, ttl: nat): (r: Option<Hash>)
  {
    match Peek(cache, key)
    case Some(e) => if Fresh(e, now, ttl) then Some(e.commit) else None
    case None => None
  }

  /** A hit refreshes the recency; an expired entry is dropped. */
  function LookupOps(cache: Cache, key: Key, now: nat, ttl: nat): (r: seq<Op<Key, Entry>>)
  {
    match Peek(cache, key)
    case Some(e) => if Fresh(e, now, ttl) then [OpGet(key)] else [OpGet(key), OpPop(key)]
    case None => [OpGet(key)]
  }

  function Looked(cache: Cache, key: Key, now: nat, ttl: nat, cap: nat): (r: Cache)
  {
    Run(cache, LookupOps(cache, key, now, ttl), cap)
  }

  /** A lookup removes at most the expired entry of its own key, and never
      changes an entry: hits do not re-stamp. */
  lemma LookedKeeps(cache: Cache, key: Key, now: nat, ttl: nat, cap: nat)
    requires Valid(cache, cap) && cap > 0
    ensures var after := Looked(cache, key, now, ttl, cap);
            && Valid(after, cap)
            && (forall k :: k != key ==> Peek(after, k) == Peek(cache, k))
            && (LookupHit(cache, key, now, ttl).Some? ==> Peek(after, key) == Peek(cache, key))
            && (LookupHit(cache, key, now, ttl).None? ==> Peek(after, key) == None)
            && (key !in Keys(cache) ==> after == cache)
  {
    var after := Looked(cache, key, now, ttl, cap);
    RunValid(cache, LookupOps(cache, key, now, ttl), cap);
    UnrollLookup(cache, key, now, ttl, cap);
    forall k
      ensures k != key ==> Peek(after, k) == Peek(cache, k)
    {
      GetPeek(cache, key, k);
      WithoutPeek(cache, key, k);
      WithoutPeek(Get(cache, key), key, k);
    }
    GetPeek(cache, key, key);
  }

  lemma UnrollLookup(cache: Cache, key: Key, now: nat, ttl: nat, cap: nat)
    ensures Looked(cache, key, now, ttl, cap)
         == if LookupHit(cache, key, now, ttl).None? && Peek(cache, key).Some?
            then Without(Get(cache, key), key) else Get(cache, key)
  {
    var ops := LookupOps(cache, key, now, ttl);
    assert ops[0] == OpGet(key);
    if |ops| == 2 {
      assert ops[1..] == [OpPop(key)];
      var popped := Without(Get(cache, key), key);
      assert ops[1..][1..] == [];
      assert Run(Get(cache, key), ops[1..], cap) == Run(popped, [], cap);
    } else {
      assert ops[1..] == [];
      assert Run(Get(cache, key), ops[1..], cap) == Get(cache, key);
    }
  }

  lemma {:induction false} WithoutPeek(s: Cache, key: Key, k: Key)
    ensures k != key ==> Peek(Without(s, key), k) == Peek(s, k)
  {
    if s != [] {
      WithoutPeek(s[1..], key, k);
      assert ([s[0]] + Without(s[1..], key))[1..] == Without(s[1..], key);
    }
  }

  lemma GetPeek(s: Cache, key: Key, k: Key)
    ensures Peek(Get(s, key), k) == Peek(s, k)
  {
    if key in Keys(s) {
      WithoutPeek(s, key, k);
      var front := Slot(key, Peek(s, key).value);
      assert ([front] + Without(s, key))[1..] == Without(s, key);
    }
  }

  /** Storing answers for its own key; others keep their entry or are evicted. */
  lemma StoredPeek(s: Cache, key: Key, e: Entry, cap: nat, k: Key)
    ensures Peek(Put(s, key, e, cap), key) == Some(e)
    ensures k != key ==> Peek(Put(s, key, e, cap), k) == Peek(s, k) || Peek(Put(s, key, e, cap), k) == None
  {
    var rest := if key in Keys(s) then Without(s, key) else if |s| >= cap then DropOldest(s) else s;
    assert ([Slot(key, e)] + rest)[1..] == rest;
    WithoutPeek(s, key, k);
    DropOldestPeek(s, k);
  }

  lemma {:induction false} DropOldestPeek(s: Cache, k: Key)
    ensures Peek(DropOldest(s), k) == Peek(s, k) || Peek(DropOldest(s), k) == None
  {
    if |s| > 1 {
      DropOldestPeek(s[1..], k);
      assert ([s[0]] + DropOldest(s[1..]))[1..] == DropOldest(s[1..]);
    }
  }

  /** A lookup by the place of the entry it finds. */
  lemma LookupAt(cache: Cache, key: Key, now: nat, ttl: nat, cap: nat)
    requires Valid(cache, cap) && cap > 0
    ensures (forall i :: 0 <= i < |cache| ==> cache[i].key != key) ==>
              LookupHit(cache, key, now, ttl) == None && Looked(cache, key, now, ttl, cap) == cache
    ensures forall i :: 0 <= i < |cache| && cache[i].key == key ==>
              if 0 < ttl && now < cache[i].value.storedAt + ttl then
                && LookupHit(cache, key, now, ttl) == Some(cache[i].value.commit)
                && Looked(cache, key, now, ttl, cap) == [cache[i]] + cache[..i] + cache[i + 1..]
              else
                && LookupHit(cache, key, now, ttl) == None
                && Looked(cache, key, now, ttl, cap) == cache[..i] + cache[i + 1..]
  {
    UnrollLookup(cache, key, now, ttl, cap);
    hide Looked, Get, Without, Keys, Distinct, Peek;
    forall i | 0 <= i < |cache| && cache[i].key == key
      ensures Peek(cache, key) == Some(cache[i].value) && Get(cache, key) == [cache[i]] + cache[..i] + cache[i + 1..]
      ensures Without(Get(cache, key), key) == cache[..i] + cache[i + 1..]
    {
      GotAt(cache, key, i);
    }
    if forall i :: 0 <= i < |cache| ==> cache[i].key != key {
      AbsentGet(cache, key);
    }
  }

  lemma GotAt(cache: Cache, key: Key, i: nat)
    requires Lru.Distinct(cache) && i < |cache| && cache[i].key == key
    ensures Peek(cache, key) == Some(cache[i].value)
    ensures Get(cache, key) == [cache[i]] + cache[..i] + cache[i + 1..]
    ensures Without(Get(cache, key), key) == cache[..i] + cache[i + 1..]
  {
    FrontPeek(cache, key, i);
    var stored := StoredAt(cache, key);
    OnePlace(cache, i, stored);
    var rest := cache[..i] + cache[i + 1..];
    assert Without(cache, key) == rest;
    assert Get(cache, key) == [cache[i]] + rest;
    assert ([cache[i]] + rest)[1..] == rest && Without(rest, key) == rest;
    assert [cache[i]] + rest == [cache[i]] + cache[..i] + cache[i + 1..];
  }

  lemma {:induction false} AbsentGet(cache: Cache, key: Key)
    requires forall i :: 0 <= i < |cache| ==> cache[i].key != key
    ensures Peek(cache, key) == None && Get(cache, key) == cache
  {
    if cache != [] {
      assert cache[0].key != key;
      AbsentGet(cache[1..], key);
    }
  }

  lemma {:induction false} OnePlace(s: Cache, i: nat, j: nat)
    requires Lru.Distinct(s) && i < |s| && j < |s| && s[i].key == s[j].key
    ensures i == j
  {
    if i > 0 && j > 0 {
      OnePlace(s[1..], i - 1, j - 1);
    } else if i > 0 {
      assert s[i] == s[1..][i - 1];
      KeyAt(s[1..], i - 1);
    } else if j > 0 {
      assert s[j] == s[1..][j - 1];
      KeyAt(s[1..], j - 1);
    }
  }

  // ----- Reading the registry and reconciling the cache -----------------------------

  /** What a registry answer does to the cache: a hash replaces, zero evicts, a
      failure leaves it alone. */
  function Reconciled(cache: Cache, key: Key, answer: Answer, now: nat, cap: nat): (r: Cache)
  {
    match answer
    case Hashed(h) => if h != 0 then Put(cache, key, Entry(h, now), cap) else Without(cache, key)
    case Failed(_) => cache
  }

  function RefreshResult(answer: Answer): (r: Result<Hash, CommitmentError>)
  {
    match answer
    case Hashed(h) => if h != 0 then Success(h) else Failure(NotFound)
    case Failed(timedOut) => Failure(if timedOut then Timeout else Transport)
  }

  lemma ReconciledValid(cache: Cache, key: Key, answer: Answer, now: nat, cap: nat)
    requires Valid(cache, cap) && cap > 0
    ensures Valid(Reconciled(cache, key, answer, now, cap), cap)
  {
    if answer.Hashed? {
      ApplyValid(cache, if answer.hash != 0 then OpPut(key, Entry(answer.hash, now)) else OpPop(key), cap);
    }
  }

  /** Any run of lookups that find no commitment, each a cache lookup and an
      eviction, leaves every other entry and their order as they were. */
  lemma AbsentFetchIsInert(cache: Cache, key: Key, now: nat, later: nat, ttl: nat, cap: nat)
    requires Valid(cache, cap) && cap > 0 && LookupHit(cache, key, now, ttl).None?
    ensures Reconciled(Looked(cache, key, now, ttl, cap), key, Hashed(0), later, cap) == Without(cache, key)
    ensures key !in Keys(cache) ==> Without(cache, key) == cache
  {
    UnrollLookup(cache, key, now, ttl, cap);
    if key in Keys(cache) {
      var front := Slot(key, Peek(cache, key).value);
      assert ([front] + Without(cache, key))[1..] == Without(cache, key);
      assert Without(Get(cache, key), key) == Without(cache, key);
    }
  }

  /** A fetch that finds no commitment: looked up at one time, and the absent
      answer reconciled at another. */
  datatype AbsentFetch = AbsentFetch(key: Key, lookedAt: nat, answeredAt: nat)

  function WithoutAll(cache: Cache, fetches: seq<AbsentFetch>): (r: Cache)
    decreases |fetches|
  {
    if fetches == [] then cache else WithoutAll(Without(cache, fetches[0].key), fetches[1..])
  }

  /** The cache after the fetches, one after the other. */
  function AbsentFetches(cache: Cache, fetches: seq<AbsentFetch>, ttl: nat, cap: nat): (r: Cache)
    decreases |fetches|
  {
    if fetches == [] then cache
    else
      var f := fetches[0];
      AbsentFetches(Reconciled(Looked(cache, f.key, f.lookedAt, ttl, cap), f.key, Hashed(0), f.answeredAt, cap),
                    fetches[1..], ttl, cap)
  }

  /** A spam of absent handles, each fetched at its own time, cannot evict or
      reorder the warm entries. */
  lemma {:induction false} AbsentSpamIsInert(cache: Cache, fetches: seq<AbsentFetch>, ttl: nat, cap: nat)
    requires Valid(cache, cap) && cap > 0
    requires forall i :: 0 <= i < |fetches| ==> LookupHit(cache, fetches[i].key, fetches[i].lookedAt, ttl).None?
    ensures AbsentFetches(cache, fetches, ttl, cap) == WithoutAll(cache, fetches)
    decreases |fetches|
  {
    if fetches != [] {
      var f := fetches[0];
      AbsentFetchIsInert(cache, f.key, f.lookedAt, f.answeredAt, ttl, cap);
      var next := Without(cache, f.key);
      ApplyValid(cache, OpPop(f.key), cap);
      var rest := fetches[1..];
      forall i | 0 <= i < |rest|
        ensures LookupHit(next, rest[i].key, rest[i].lookedAt, ttl).None?
      {
        assert rest[i] == fetches[i + 1];
        WithoutPeek(cache, f.key, rest[i].key);
      }
      AbsentSpamIsInert(next, rest, ttl, cap);
    }
  }

  /** Keys other than the oldest one keep their entry when it is dropped. */
  lemma {:induction false} DropOldestKeeps(s: Cache, k: Key)
    requires s != [] && k != s[|s| - 1].key
    ensures Peek(DropOldest(s), k) == Peek(s, k)
  {
    if |s| > 1 {
      DropOldestKeeps(s[1..], k);
      assert ([s[0]] + DropOldest(s[1..]))[1..] == DropOldest(s[1..]);
    }
  }

  /** What storing does for a later caller: the hash is served until one TTL has
      passed, and every other key keeps its entry but, at capacity, the oldest. */
  lemma StoredServes(s: Cache, key: Key, commit: Hash, now: nat, ttl: nat, cap: nat)
    requires Valid(s, cap) && cap > 0
    ensures var after := Put(s, key, Entry(commit, now), cap);
            && (forall later :: later >= now ==>
                  LookupHit(after, key, later, ttl) == if later - now < ttl then Some(commit) else None)
            && (forall k :: k != key && Peek(after, k) != Peek(s, k) ==>
                  key !in Keys(s) && |s| == cap && k == s[cap - 1].key)
  {
    var after := Put(s, key, Entry(commit, now), cap);
    var rest := if key in Keys(s) then Without(s, key) else if |s| >= cap then DropOldest(s) else s;
    assert ([Slot(key, Entry(commit, now))] + rest)[1..] == rest;
    forall k | k != key && Peek(after, k) != Peek(s, k)
      ensures key !in Keys(s) && |s| == cap && k == s[cap - 1].key
    {
      WithoutPeek(s, key, k);
      if key !in Keys(s) && |s| == cap && k != s[cap - 1].key {
        DropOldestKeeps(s, k);
      }
    }
  }

  lemma {:induction false} WithoutSize(s: Cache, key: Key)
    requires Distinct(s)
    ensures |Without(s, key)| == |s| - if key in Keys(s) then 1 else 0
  {
    if s != [] {
      WithoutSize(s[1..], key);
    }
  }

  /** What evicting does: the key is a miss at any time, nothing else changes. */
  lemma EvictedMisses(s: Cache, key: Key, ttl: nat)
    ensures forall later :: LookupHit(Without(s, key), key, later, ttl) == None
    ensures forall k :: k != key ==> Peek(Without(s, key), k) == Peek(s, k)
  {
    forall k
      ensures k != key ==> Peek(Without(s, key), k) == Peek(s, k)
    {
      WithoutPeek(s, key, k);
    }
  }

  // ----- The cache object ----------------------------------------------------------

  /** `CommitmentConfig` as far as its cache goes. */
  class CommitmentConfig {
    const ttl: nat
    const capacity: nat
    const warnOnly: bool
    var cache: Cache

    ghost predicate Consistent()
      reads this
    {
      capacity > 0 && Valid(cache, capacity)
    }

    constructor (capacity: nat, ttl: nat, warnOnly: bool)
      requires capacity > 0
      ensures Consistent() && cache == []
      ensures this.capacity == capacity && this.ttl == ttl && this.warnOnly == warnOnly
    {
      this.capacity, this.ttl, this.warnOnly, this.cache := capacity, ttl, warnOnly, [];
    }

    /** An entry younger than the TTL is served and becomes the newest, an older
        one is dropped; all others keep their order. */
    method GetFromCache(key: Key, now: nat) returns (hit: Option<Hash>)
      requires Consistent()
      modifies this`cache
      ensures Consistent()
      ensures (forall i :: 0 <= i < |old(cache)| ==> old(cache)[i].key != key) ==> hit == None && cache == old(cache)
      ensures forall i :: 0 <= i < |old(cache)| && old(cache)[i].key == key ==>
                if 0 < ttl && now < old(cache)[i].value.storedAt + ttl then
                  hit == Some(old(cache)[i].value.commit) && cache == [old(cache)[i]] + old(cache)[..i] + old(cache)[i + 1..]
                else
                  hit == None && cache == old(cache)[..i] + old(cache)[i + 1..]
      ensures hit == LookupHit(old(cache), key, now, ttl)
      ensures cache == Looked(old(cache), key, now, ttl, capacity)
    {
      UnrollLookup(cache, key, now, ttl, capacity);
      LookedKeeps(cache, key, now, ttl, capacity);
      LookupAt(cache, key, now, ttl, capacity);
      hide Get, Without, Looked, Keys, Distinct;
      var entry := Peek(cache, key);
      cache := Get(cache, key);
      if entry.None? {
        return None;
      }
      if Fresh(entry.value, now, ttl) {
        return Some(entry.value.commit);
      }
      cache := Without(cache, key);
      return None;
    }

    method PutInCache(key: Key, commit: Hash, now: nat)
      requires Consistent()
      modifies this`cache
      ensures Consistent() && cache != [] && cache[0] == Slot(key, Entry(commit, now))
      ensures forall later :: later >= now ==>
                LookupHit(cache, key, later, ttl) == if later - now < ttl then Some(commit) else None
      ensures forall k :: k != key && Peek(cache, k) != Peek(old(cache), k) ==>
                key !in Keys(old(cache)) && |old(cache)| == capacity && k == old(cache)[capacity - 1].key
      ensures cache == Put(old(cache), key, Entry(commit, now), capacity)
    {
      StoredServes(cache, key, commit, now, ttl, capacity);
      ApplyValid(cache, OpPut(key, Entry(commit, now)), capacity);
      cache := Put(cache, key, Entry(commit, now), capacity);
    }

    method EvictFromCache(key: Key)
      requires Consistent()
      modifies this`cache
      ensures Consistent()
      ensures forall later :: LookupHit(cache, key, later, ttl) == None
      ensures forall k :: k != key ==> Peek(cache, k) == Peek(old(cache), k)
      ensures |cache| == |old(cache)| - if key in Keys(old(cache)) then 1 else 0
      ensures cache == Without(old(cache), key)
    {
      EvictedMisses(cache, key, ttl);
      WithoutSize(cache, key);
      ApplyValid(cache, OpPop(key), capacity);
      cache := Without(cache, key);
    }

    /** `refresh_commitment`, given what the registry answered and when. */
    method RefreshCommitment(key: Key, answer: Answer, now: nat) returns (r: Result<Hash, CommitmentError>)
      requires Consistent()
      modifies this`cache
      ensures Consistent()
      ensures answer.Failed? ==> cache == old(cache) && r == Failure(if answer.timedOut then Timeout else Transport)
      ensures answer == Hashed(0) ==> r == Failure(NotFound) && key !in Keys(cache)
      ensures answer.Hashed? && answer.hash != 0 ==>
                r == Success(answer.hash) && cache != [] && cache[0] == Slot(key, Entry(answer.hash, now))
      ensures r == RefreshResult(answer)
      ensures cache == Reconciled(old(cache), key, answer, now, capacity)
    {
      match answer
      case Failed(timedOut) =>
        return Failure(if timedOut then Timeout else Transport);
      case Hashed(commit) =>
        if commit != 0 {
          PutInCache(key, commit, now);
          return Success(commit);
        }
        EvictFromCache(key);
        return Failure(NotFound);
    }

    /** `fetch_commitment`: the registry is asked only on a miss. */
    method FetchCommitment(key: Key, now: nat, answer: Answer, later: nat)
      returns (r: Result<Fetched, CommitmentError>)
      requires Consistent()
      modifies this`cache
      ensures Consistent()
      ensures var hit := LookupHit(old(cache), key, now, ttl);
              var looked := Looked(old(cache), key, now, ttl, capacity);
              if hit.Some? then r == Success(Fetched(hit.value, true)) && cache == looked
              else r == FetchResult(answer) && cache == Reconciled(looked, key, answer, later, capacity)
    {
      var hit := GetFromCache(key, now);
      if hit.Some? {
        return Success(Fetched(hit.value, true));
      }
      var answered := RefreshCommitment(key, answer, later);
      match answered
      case Success(hash) => return Success(Fetched(hash, false));
      case Failure(e) => return Failure(e);
    }

    /** `enforce_commitment_integrity`: on a mismatch with a cached hash the
        registry is asked once more, and the expectation follows its answer. */
    method EnforceIntegrityOf(fetched: Fetched, actual: Hash, key: Key, answer: Answer, now: nat) returns (v: Verdict)
      requires Consistent()
      modifies this`cache
      ensures Consistent()
      ensures v == EnforceIntegrity(fetched, actual, RefreshResult(answer), warnOnly)
      ensures v == Mismatch ==> !warnOnly && fetched.hash != actual && (fetched.fromCache ==> answer != Hashed(actual))
      ensures v == Pass ==> fetched.hash == actual || (fetched.fromCache && answer == Hashed(actual))
      ensures cache == if NeedsReread(fetched, actual) then Reconciled(old(cache), key, answer, now, capacity) else old(cache)
    {
      var expected := fetched.hash;
      if actual != expected && fetched.fromCache {
        var reread := RefreshCommitment(key, answer, now);
        match reread
        case Success(current) =>
          if current == actual {
            return Pass;
          }
          expected := current;
        case Failure(NotFound) =>
          return if warnOnly then Unchecked else Pending;
        case Failure(_) =>
      }
      if actual == expected {
        return Pass;
      }
      return if warnOnly then Unchecked else Mismatch;
    }
  }

  function FetchResult(answer: Answer): (r: Result<Fetched, CommitmentError>)
  {
    match RefreshResult(answer)
    case Success(hash) => Success(Fetched(hash, false))
    case Failure(e) => Failure(e)
  }

  // ----- The gate's decisions -------------------------------------------------------

  /** How the commitment gate ends for a request: the bytes match, the request
      goes on unchecked (warn-only), or one of the refusals. */
  datatype Verdict = Pass | Unchecked | Pending | VerifierTimeout | VerifierError | Mismatch

  function Refusal(e: CommitmentError): (r: Verdict)
  {
    match e
    case NotFound => Pending
    case Timeout => VerifierTimeout
    case Transport => VerifierError
  }

  /** `enforce_commitment`: go on with an expectation, go on without one
      (warn-only), or refuse. */
  function EnforceCommitment(r: Result<Fetched, CommitmentError>, warnOnly: bool): (out: Result<Option<Fetched>, Verdict>)
  {
    match r
    case Success(fetched) => Success(Some(fetched))
    case Failure(e) => if warnOnly then Success(None) else Failure(Refusal(e))
  }

  predicate NeedsReread(fetched: Fetched, actual: Hash)
  {
    actual != fetched.hash && fetched.fromCache
  }

  /** `enforce_commitment_integrity`; `reread` is what a re-read returns, and is
      looked at only when one is made. */
  function EnforceIntegrity(fetched: Fetched, actual: Hash, reread: Result<Hash, CommitmentError>, warnOnly: bool): (r: Verdict)
  {
    if NeedsReread(fetched, actual) && reread.Success? && reread.value == actual then Pass
    else if NeedsReread(fetched, actual) && reread == Failure(NotFound) then
      if warnOnly then Unchecked else Pending
    else
      var expected := if NeedsReread(fetched, actual) && reread.Success? then reread.value else fetched.hash;
      if actual == expected then Pass
      else if warnOnly then Unchecked
      else Mismatch
  }
}
