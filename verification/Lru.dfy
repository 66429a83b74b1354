/** The `lru::LruCache` contract the commitment cache (src/commitment.rs) and the
    v2 result caches (src/http.rs) rely on: entries in recency order, newest
    first, and what survives a run of operations. */
module Lru {
  import opened Options

  datatype Slot<K, V> = Slot(key: K, value: V)

  function Keys<K(==), V>(s: seq<Slot<K, V>>): (r: set<K>)
  {
    if s == [] then {} else {s[0].key} + Keys(s[1..])
  }

  predicate Distinct<K(==), V>(s: seq<Slot<K, V>>)
  {
    s == [] || (s[0].key !in Keys(s[1..]) && Distinct(s[1..]))
  }

  predicate Valid<K(==), V>(s: seq<Slot<K, V>>, cap: nat)
  {
    Distinct(s) && |s| <= cap
  }

  function Peek<K(==), V>(s: seq<Slot<K, V>>, k: K): (r: Option<V>)
    ensures r.Some? <==> k in Keys(s)
  {
    if s == [] then None else if s[0].key == k then Some(s[0].value) else Peek(s[1..], k)
  }

  /** The entries other than those of k, in the same order. */
  function Without<K(==), V>(s: seq<Slot<K, V>>, k: K): (r: seq<Slot<K, V>>)
    ensures Keys(r) == Keys(s) - {k}
    ensures |r| <= |s| && (k in Keys(s) ==> |r| < |s|)
    ensures k !in Keys(s) ==> r == s
  {
    if s == [] then []
    else
      var rest := Without(s[1..], k);
      if s[0].key == k then rest
      else
        assert ([s[0]] + rest)[1..] == rest;
        [s[0]] + rest
  }

  function DropOldest<K, V>(s: seq<Slot<K, V>>): (r: seq<Slot<K, V>>)
    ensures s != [] ==> |r| == |s| - 1
  {
    if |s| <= 1 then [] else [s[0]] + DropOldest(s[1..])
  }

  // ----- The operations -------------------------------------------------------

  /** `get` moves a present entry to the front and changes nothing else. */
  function Get<K(==), V>(s: seq<Slot<K, V>>, k: K): (r: seq<Slot<K, V>>)
  {
    match Peek(s, k)
    case Some(v) => [Slot(k, v)] + Without(s, k)
    case None => s
  }

  /** `put` replaces a present entry or, at capacity, drops the oldest one. */
  function Put<K(==), V>(s: seq<Slot<K, V>>, k: K, v: V, cap: nat): (r: seq<Slot<K, V>>)
  {
    [Slot(k, v)] + (if k in Keys(s) then Without(s, k)
                    else if |s| >= cap then DropOldest(s)
                    else s)
  }

  datatype Op<K, V> = OpGet(key: K) | OpPut(key: K, value: V) | OpPop(key: K)

  function Apply<K(==), V>(s: seq<Slot<K, V>>, op: Op<K, V>, cap: nat): (r: seq<Slot<K, V>>)
  {
    match op
    case OpGet(k) => Get(s, k)
    case OpPut(k, v) => Put(s, k, v, cap)
    case OpPop(k) => Without(s, k)
  }

  function Run<K(==), V>(s: seq<Slot<K, V>>, ops: seq<Op<K, V>>, cap: nat): (r: seq<Slot<K, V>>)
    decreases |ops|
  {
    if ops == [] then s else Run(Apply(s, ops[0], cap), ops[1..], cap)
  }

  lemma KeysCons<K, V>(front: Slot<K, V>, s: seq<Slot<K, V>>)
    ensures Keys([front] + s) == {front.key} + Keys(s)
    ensures Distinct([front] + s) <==> front.key !in Keys(s) && Distinct(s)
  {
    assert ([front] + s)[1..] == s;
  }

  lemma {:induction false} WithoutDistinct<K, V>(s: seq<Slot<K, V>>, k: K)
    requires Distinct(s)
    ensures Distinct(Without(s, k))
  {
    if s != [] {
      WithoutDistinct(s[1..], k);
      KeysCons(s[0], Without(s[1..], k));
    }
  }

  lemma {:induction false} DropOldestDistinct<K, V>(s: seq<Slot<K, V>>)
    requires Distinct(s)
    ensures Distinct(DropOldest(s)) && Keys(DropOldest(s)) <= Keys(s)
  {
    if |s| > 1 {
      DropOldestDistinct(s[1..]);
      KeysCons(s[0], DropOldest(s[1..]));
    }
  }

  lemma ApplyValid<K, V>(s: seq<Slot<K, V>>, op: Op<K, V>, cap: nat)
    requires Valid(s, cap) && cap > 0
    ensures Valid(Apply(s, op, cap), cap)
  {
    WithoutDistinct(s, op.key);
    DropOldestDistinct(s);
    match op
    case OpGet(k) =>
      if k in Keys(s) { KeysCons(Slot(k, Peek(s, k).value), Without(s, k)); }
    case OpPut(k, v) =>
      KeysCons(Slot(k, v), if k in Keys(s) then Without(s, k) else if |s| >= cap then DropOldest(s) else s);
    case OpPop(_) =>
  }

  /** No run of operations exceeds the capacity or stores a key twice. */
  lemma {:induction false} RunValid<K, V>(s: seq<Slot<K, V>>, ops: seq<Op<K, V>>, cap: nat)
    requires Valid(s, cap) && cap > 0
    ensures Valid(Run(s, ops, cap), cap)
    decreases |ops|
  {
    if ops != [] {
      ApplyValid(s, ops[0], cap);
      RunValid(Apply(s, ops[0], cap), ops[1..], cap);
    }
  }

  // ----- What survives -----------------------------------------------------------

  /** Keys an operation touches: stored, or found by a lookup. */
  function TouchedBy<K(==), V>(s: seq<Slot<K, V>>, op: Op<K, V>): (r: set<K>)
  {
    match op
    case OpGet(k) => if k in Keys(s) then {k} else {}
    case OpPut(k, _) => {k}
    case OpPop(_) => {}
  }

  function Touched<K(==), V>(s: seq<Slot<K, V>>, ops: seq<Op<K, V>>, cap: nat): (r: set<K>)
    decreases |ops|
  {
    if ops == [] then {} else TouchedBy(s, ops[0]) + Touched(Apply(s, ops[0], cap), ops[1..], cap)
  }

  /** k is stored with value v, and everything more recent is in t. */
  ghost predicate Held<K, V>(s: seq<Slot<K, V>>, k: K, v: V, t: set<K>)
  {
    s != [] && (s[0] == Slot(k, v) || (s[0].key != k && s[0].key in t && Held(s[1..], k, v, t)))
  }

  lemma {:induction false} HeldPeek<K, V>(s: seq<Slot<K, V>>, k: K, v: V, t: set<K>)
    requires Held(s, k, v, t)
    ensures Peek(s, k) == Some(v)
  {
    if s[0] != Slot(k, v) {
      HeldPeek(s[1..], k, v, t);
    }
  }

  lemma HeldCons<K, V>(front: Slot<K, V>, s: seq<Slot<K, V>>, k: K, v: V, t: set<K>)
    requires Held(s, k, v, t) && front.key in t && front.key != k
    ensures Held([front] + s, k, v, t)
  {
    assert ([front] + s)[1..] == s;
  }

  /** Dropping another key keeps the rest in place. */
  lemma {:induction false} WithoutHeld<K, V>(s: seq<Slot<K, V>>, other: K, k: K, v: V, t: set<K>)
    requires Held(s, k, v, t) && other != k
    ensures Held(Without(s, other), k, v, t)
  {
    if s[0] != Slot(k, v) {
      WithoutHeld(s[1..], other, k, v, t);
      if s[0].key != other {
        HeldCons(s[0], Without(s[1..], other), k, v, t);
      }
    }
  }

  lemma {:induction false} HeldShrink<K, V>(s: seq<Slot<K, V>>, x: K, k: K, v: V, t: set<K>)
    requires Held(s, k, v, t) && x !in Keys(s)
    ensures Held(s, k, v, t - {x})
  {
    if s[0] != Slot(k, v) {
      HeldShrink(s[1..], x, k, v, t);
    }
  }

  /** Fewer keys are more recent than k than there are other entries, so k is
      not the oldest one. */
  lemma {:induction false} DropOldestHeld<K, V>(s: seq<Slot<K, V>>, k: K, v: V, t: set<K>)
    requires Distinct(s) && Held(s, k, v, t) && |t| + 1 < |s|
    ensures Held(DropOldest(s), k, v, t)
  {
    if s[0] != Slot(k, v) {
      HeldShrink(s[1..], s[0].key, k, v, t);
      DropOldestHeld(s[1..], k, v, t - {s[0].key});
      HeldGrow(DropOldest(s[1..]), k, v, t - {s[0].key}, t);
      HeldCons(s[0], DropOldest(s[1..]), k, v, t);
    }
  }

  lemma {:induction false} HeldGrow<K, V>(s: seq<Slot<K, V>>, k: K, v: V, t: set<K>, t': set<K>)
    requires Held(s, k, v, t) && t <= t'
    ensures Held(s, k, v, t')
  {
    if s[0] != Slot(k, v) {
      HeldGrow(s[1..], k, v, t, t');
    }
  }

  /** An operation touching only keys of t keeps k: it is never the oldest. */
  lemma ApplyHeld<K, V>(s: seq<Slot<K, V>>, op: Op<K, V>, cap: nat, k: K, v: V, t: set<K>)
    requires Valid(s, cap) && Held(s, k, v, t) && k !in t && |t| < cap
    requires op.key == k ==> op.OpGet?
    requires TouchedBy(s, op) <= t + {k}
    ensures Held(Apply(s, op, cap), k, v, t)
  {
    if op.key == k {
      HeldPeek(s, k, v, t);
    } else {
      WithoutHeld(s, op.key, k, v, t);
      match op
      case OpGet(other) =>
        if other in Keys(s) {
          HeldCons(Slot(other, Peek(s, other).value), Without(s, other), k, v, t);
        }
      case OpPut(other, w) =>
        if other in Keys(s) {
          HeldCons(Slot(other, w), Without(s, other), k, v, t);
        } else if |s| >= cap {
          HeldShrink(s, other, k, v, t);
          DropOldestHeld(s, k, v, t - {other});
          HeldGrow(DropOldest(s), k, v, t - {other}, t);
          HeldCons(Slot(other, w), DropOldest(s), k, v, t);
        } else {
          HeldCons(Slot(other, w), s, k, v, t);
        }
      case OpPop(other) =>
    }
  }

  lemma {:induction false} RunHeld<K, V>(s: seq<Slot<K, V>>, ops: seq<Op<K, V>>, cap: nat, k: K, v: V, t: set<K>)
    requires Valid(s, cap) && Held(s, k, v, t) && k !in t && |t| < cap
    requires forall i :: 0 <= i < |ops| && ops[i].key == k ==> ops[i].OpGet?
    requires Touched(s, ops, cap) <= t + {k}
    ensures Held(Run(s, ops, cap), k, v, t)
    decreases |ops|
  {
    if ops != [] {
      ApplyHeld(s, ops[0], cap, k, v, t);
      ApplyValid(s, ops[0], cap);
      RunHeld(Apply(s, ops[0], cap), ops[1..], cap, k, v, t);
    }
  }

  /** The LRU guarantee: a key just touched, and then neither popped nor stored
      again, keeps its value through any run that touches fewer than `cap`
      distinct other keys. Lookups of absent keys touch nothing. */
  lemma Survives<K, V>(s: seq<Slot<K, V>>, ops: seq<Op<K, V>>, cap: nat)
    requires Valid(s, cap) && s != []
    requires forall i :: 0 <= i < |ops| && ops[i].key == s[0].key ==> ops[i].OpGet?
    requires |Touched(s, ops, cap) - {s[0].key}| < cap
    ensures Peek(Run(s, ops, cap), s[0].key) == Some(s[0].value)
  {
    var k, v, t := s[0].key, s[0].value, Touched(s, ops, cap) - {s[0].key};
    RunHeld(s, ops, cap, k, v, t);
    HeldPeek(Run(s, ops, cap), k, v, t);
  }

  /** Where a stored key is, and what is left when its entry is taken out. */
  lemma {:induction false} StoredAt<K, V>(s: seq<Slot<K, V>>, k: K) returns (i: nat)
    requires Distinct(s) && k in Keys(s)
    ensures i < |s| && s[i].key == k && Peek(s, k) == Some(s[i].value)
    ensures Without(s, k) == s[..i] + s[i + 1..]
  {
    if s[0].key == k {
      i := 0;
      assert Without(s[1..], k) == s[1..];
    } else {
      var j := StoredAt(s[1..], k);
      i := j + 1;
      assert Peek(s, k) == Peek(s[1..], k) && Without(s, k) == [s[0]] + Without(s[1..], k);
      hide *;
      LaterPlace(s, j);
    }
  }

  lemma LaterPlace<T>(s: seq<T>, j: nat)
    requires j + 1 < |s|
    ensures s[j + 1] == s[1..][j]
    ensures s[..j + 1] + s[j + 2..] == [s[0]] + (s[1..][..j] + s[1..][j + 1..])
  {
  }

  /** A lookup is a touch: the entry found comes to the front, the others keep
      their order. */
  lemma LookupMovesToFront<K, V>(s: seq<Slot<K, V>>, k: K) returns (i: nat)
    requires Distinct(s) && k in Keys(s)
    ensures i < |s| && s[i].key == k
    ensures Get(s, k) == [s[i]] + s[..i] + s[i + 1..]
  {
    i := StoredAt(s, k);
    assert [s[i]] + s[..i] + s[i + 1..] == [s[i]] + (s[..i] + s[i + 1..]);
  }

  /** A key looked up, wherever it stood, survives like one just stored: through
      any run that touches fewer than `cap` other keys and neither pops nor stores
      it. */
  lemma LookedUpSurvives<K, V>(s: seq<Slot<K, V>>, k: K, ops: seq<Op<K, V>>, cap: nat)
    requires Valid(s, cap) && k in Keys(s)
    requires forall i :: 0 <= i < |ops| && ops[i].key == k ==> ops[i].OpGet?
    requires |Touched(s, [OpGet(k)] + ops, cap) - {k}| < cap
    ensures Peek(Run(s, [OpGet(k)] + ops, cap), k) == Peek(s, k) != None
  {
    var all: seq<Op<K, V>> := [OpGet(k)] + ops;
    var next := Apply(s, OpGet(k), cap);
    assert all[1..] == ops && all[0] == OpGet(k);
    assert Touched(s, all, cap) == TouchedBy(s, all[0]) + Touched(next, ops, cap);
    assert Touched(next, ops, cap) - {k} == Touched(s, all, cap) - {k};
    ApplyValid(s, OpGet(k), cap);
    var at := LookupMovesToFront(s, k);
    assert next[0] == s[at];
    FrontPeek(s, k, at);
    Survives(next, ops, cap);
  }

  lemma {:induction false} FrontPeek<K, V>(s: seq<Slot<K, V>>, k: K, i: nat)
    requires Distinct(s) && i < |s| && s[i].key == k
    ensures Peek(s, k) == Some(s[i].value)
  {
    if i > 0 {
      assert s[i] == s[1..][i - 1];
      KeyAt(s[1..], i - 1);
      FrontPeek(s[1..], k, i - 1);
    }
  }

  lemma {:induction false} KeyAt<K, V>(s: seq<Slot<K, V>>, i: nat)
    requires i < |s|
    ensures s[i].key in Keys(s)
  {
    if i > 0 {
      assert s[i] == s[1..][i - 1];
      KeyAt(s[1..], i - 1);
    }
  }

  // ----- The bound is sharp ---------------------------------------------------------

  function PutAll<K, V>(news: seq<Slot<K, V>>): (r: seq<Op<K, V>>)
  {
    if news == [] then [] else [OpPut(news[0].key, news[0].value)] + PutAll(news[1..])
  }

  lemma {:induction false} DropOldestIsPrefix<K, V>(s: seq<Slot<K, V>>)
    requires s != []
    ensures DropOldest(s) == s[..|s| - 1]
  {
    if |s| > 1 {
      DropOldestIsPrefix(s[1..]);
      assert s[..|s| - 1] == [s[0]] + s[1..][..|s| - 2];
    }
  }

  /** Storing one new key at capacity shifts everything by one. */
  lemma OneShift<K, V>(s: seq<Slot<K, V>>, x: Slot<K, V>, cap: nat)
    requires |s| == cap > 0 && x.key !in Keys(s)
    ensures Apply(s, OpPut(x.key, x.value), cap) == [x] + s[..cap - 1]
    ensures Keys([x] + s[..cap - 1]) <= {x.key} + Keys(s)
  {
    DropOldestIsPrefix(s);
    KeysCons(x, s[..cap - 1]);
    PrefixKeys(s, cap - 1);
  }

  /** Storing new distinct keys at capacity pushes out one oldest entry each:
      with `cap` of them nothing of what was there is left. */
  lemma PutAllShifts<K, V>(s: seq<Slot<K, V>>, news: seq<Slot<K, V>>, cap: nat)
    requires |s| == cap > 0 && |news| <= cap
    requires Distinct(news) && Keys(news) !! Keys(s)
    ensures |Run(s, PutAll(news), cap)| == cap
    ensures Run(s, PutAll(news), cap)[|news|..] == s[..cap - |news|]
  {
    PutAllShifted(s, news, cap);
  }

  /** Of s, at capacity, all but the n oldest entries are left, at the old end. */
  ghost predicate Shifted<T>(r: seq<T>, s: seq<T>, n: nat, cap: nat)
  {
    |r| == |s| == cap && n <= cap && r[n..] == s[..cap - n]
  }

  lemma {:induction false} PutAllShifted<K, V>(s: seq<Slot<K, V>>, news: seq<Slot<K, V>>, cap: nat)
    requires |s| == cap > 0 && |news| <= cap
    requires Distinct(news) && Keys(news) !! Keys(s)
    ensures Shifted(Run(s, PutAll(news), cap), s, |news|, cap)
    decreases |news|
  {
    if news == [] {
      assert s[0..] == s[..cap];
    } else {
      hide *;
      var next := [news[0]] + s[..cap - 1];
      PutOne(s, news, cap);
      PutAllShifted(next, news[1..], cap);
      ShiftedTail(Run(next, PutAll(news[1..]), cap), s, news[0], |news|, cap);
    }
  }

  lemma PutOne<K, V>(s: seq<Slot<K, V>>, news: seq<Slot<K, V>>, cap: nat)
    requires |s| == cap > 0 && news != []
    requires Distinct(news) && Keys(news) !! Keys(s)
    ensures var next := [news[0]] + s[..cap - 1];
            && Distinct(news[1..]) && Keys(news[1..]) !! Keys(next)
            && Run(s, PutAll(news), cap) == Run(next, PutAll(news[1..]), cap)
  {
    OneShift(s, news[0], cap);
    RunPutCons(s, news, cap);
    assert Keys(news) == {news[0].key} + Keys(news[1..]);
    hide Keys, Run, PutAll, Apply;
  }

  lemma RunPutCons<K, V>(s: seq<Slot<K, V>>, news: seq<Slot<K, V>>, cap: nat)
    requires news != []
    ensures Run(s, PutAll(news), cap)
         == Run(Apply(s, OpPut(news[0].key, news[0].value), cap), PutAll(news[1..]), cap)
  {
    assert PutAll(news)[1..] == PutAll(news[1..]);
  }

  lemma ShiftedTail<T>(r: seq<T>, s: seq<T>, x: T, n: nat, cap: nat)
    requires |s| == cap && 0 < n <= cap
    requires Shifted(r, [x] + s[..cap - 1], n - 1, cap)
    ensures Shifted(r, s, n, cap)
  {
    assert r[n..] == r[n - 1..][1..];
    assert ([x] + s[..cap - 1])[..cap - n + 1] == [x] + s[..cap - n];
  }

  lemma {:induction false} PrefixKeys<K, V>(s: seq<Slot<K, V>>, n: nat)
    requires n <= |s|
    ensures Keys(s[..n]) <= Keys(s)
  {
    if n > 0 {
      PrefixKeys(s[1..], n - 1);
      assert s[..n][1..] == s[1..][..n - 1];
    }
  }

  // ----- Keys that are never stored leave no trace -----------------------------------

  /** Looking up and popping keys that are not there changes nothing at all. */
  lemma {:induction false} AbsentRunsAreInert<K, V>(s: seq<Slot<K, V>>, ops: seq<Op<K, V>>, cap: nat)
    requires forall i :: 0 <= i < |ops| ==> !ops[i].OpPut? && ops[i].key !in Keys(s)
    ensures Run(s, ops, cap) == s
    decreases |ops|
  {
    if ops != [] {
      AbsentRunsAreInert(s, ops[1..], cap);
    }
  }
}
